/** The annotation index of svannotate: for each chromosome, the padded gene
    intervals read from the annotation table, each carrying its (gene, tier)
    payload, and the overlap query the variant annotator asks of it. */
module AnnotationIndex {

  /** The data attached to an interval: `(row['gene'], int(row['tier']))`. */
  datatype Payload = Payload(gene: string, tier: int)

  /** One interval of an interval tree: the half-open range [start, end) and
      its payload. */
  datatype Entry = Entry(start: int, end: int, data: Payload)
  {
    /** Position x lies inside the half-open range. */
    ghost predicate Contains(x: int) {
      start <= x < end
    }
  }

  /** The closed query span [s, t] and entry e share at least one position. */
  ghost predicate SharesPosition(e: Entry, s: int, t: int) {
    exists x :: s <= x <= t && e.Contains(x)
  }

  /** The entries an interval tree returns for `tree[begin:stop]`: those whose
      range meets the half-open range [begin, stop); an empty or inverted
      range yields nothing. */
  function Overlap(tree: set<Entry>, begin: int, stop: int): (r: set<Entry>)
    ensures r <= tree
  {
    if begin >= stop then {}
    else set e | e in tree && e.start < stop && begin < e.end
  }

  /** Querying the half-open range [s, t + 1) finds exactly the non-empty
      entries that share a position with the closed span [s, t]. */
  lemma OverlapClosedSpan(tree: set<Entry>, s: int, t: int)
    requires forall e :: e in tree ==> e.start < e.end
    ensures forall e :: e in Overlap(tree, s, t + 1) <==> e in tree && SharesPosition(e, s, t)
  {
    forall e | e in tree && s <= t && e.start <= t && s < e.end
      ensures SharesPosition(e, s, t)
    {
      var x := if s < e.start then e.start else s;
      assert s <= x <= t && e.Contains(x);
    }
  }

  /** What a store holds for chrom, the empty set for a chromosome it has
      never seen. */
  function Stored(chroms: map<string, set<Entry>>, chrom: string): set<Entry>
  {
    if chrom in chroms then chroms[chrom] else {}
  }

  /** `AnnIntervals`: one interval tree per chromosome, created on first use. */
  class AnnIntervals {
    var chroms: map<string, set<Entry>>

    /** Every tree was created by an insertion, so none is empty, and an
        interval tree holds no empty interval. */
    ghost predicate Valid()
      reads this
    {
      forall c :: c in chroms ==>
        chroms[c] != {} && forall e :: e in chroms[c] ==> e.start < e.end
    }

    constructor ()
      ensures Valid() && chroms == map[]
    {
      chroms := map[];
    }

    /** `add`: stores [start, end) with its payload on chrom, creating the
        chromosome's tree first if it has none; an interval tree refuses an
        empty interval, so start < end. */
    method Add(chrom: string, start: int, end: int, val: Payload)
      requires Valid()
      requires start < end
      modifies this
      ensures Valid()
      ensures chroms == old(chroms)[chrom := Stored(old(chroms), chrom) + {Entry(start, end, val)}]
      ensures forall c :: c != chrom ==> Stored(chroms, c) == Stored(old(chroms), c)
      ensures forall c :: c in chroms <==> c in old(chroms) || c == chrom
    {
      if chrom !in chroms {
        chroms := chroms[chrom := {}];
      }
      var tree := chroms[chrom];
      chroms := chroms[chrom := tree + {Entry(start, end, val)}];
    }

    /** `lookup`: the stored entries on chrom that overlap the closed span
        [start, end] (the query end is inclusive, a stored end exclusive);
        nothing for a chromosome without a tree, nor for an inverted span. */
    function Lookup(chrom: string, start: int, end: int): (r: set<Entry>)
      reads this
      requires Valid()
      ensures chrom !in chroms ==> r == {}
      ensures forall e :: e in r <==>
                chrom in chroms && e in chroms[chrom] && start <= end && e.start <= end && start < e.end
      ensures forall e :: e in r <==> chrom in chroms && e in chroms[chrom] && SharesPosition(e, start, end)
    {
      if chrom in chroms then
        OverlapClosedSpan(chroms[chrom], start, end);
        Overlap(chroms[chrom], start, end + 1)
      else {}
    }
  }

  /** One row of the annotation table, its integer columns already parsed. */
  datatype AnnotationRow = AnnotationRow(chrom: string, start: int, end: int, gene: string, tier: int)

  /** The interval stored for a row: [start - pad, end + pad), no clamping. */
  function Padded(row: AnnotationRow, pad: int): Entry
  {
    Entry(row.start - pad, row.end + pad, Payload(row.gene, row.tier))
  }

  /** The store after inserting the padded rows in order. */
  function IndexOf(rows: seq<AnnotationRow>, pad: int): map<string, set<Entry>>
  {
    if rows == [] then map[]
    else
      var chroms := IndexOf(rows[..|rows| - 1], pad);
      var row := rows[|rows| - 1];
      chroms[row.chrom := Stored(chroms, row.chrom) + {Padded(row, pad)}]
  }

  /** The set of tiers seen in the rows. */
  function TiersOf(rows: seq<AnnotationRow>): set<int>
  {
    set i | 0 <= i < |rows| :: rows[i].tier
  }

  /** The store built from the rows holds a chromosome exactly when some row
      names it, and on it exactly the padded intervals of those rows. */
  lemma {:induction false} IndexOfContents(rows: seq<AnnotationRow>, pad: int, chrom: string, e: Entry)
    ensures chrom in IndexOf(rows, pad) <==> exists i :: 0 <= i < |rows| && rows[i].chrom == chrom
    ensures e in Stored(IndexOf(rows, pad), chrom) <==>
              exists i :: 0 <= i < |rows| && rows[i].chrom == chrom && Padded(rows[i], pad) == e
    decreases |rows|
  {
    if rows != [] {
      var n := |rows| - 1;
      var init := rows[..n];
      IndexOfContents(init, pad, chrom, e);
      assert forall i :: 0 <= i < n ==> init[i] == rows[i];
      if e in Stored(IndexOf(rows, pad), chrom) && e !in Stored(IndexOf(init, pad), chrom) {
        assert rows[n].chrom == chrom && Padded(rows[n], pad) == e;
      }
      if chrom in IndexOf(rows, pad) && chrom !in IndexOf(init, pad) {
        assert rows[n].chrom == chrom;
      }
    }
  }

  /** The padded interval of row r lies on chrom and meets the closed span
      [s, t]. */
  ghost predicate RowHitsSpan(r: AnnotationRow, pad: int, chrom: string, s: int, t: int)
  {
    r.chrom == chrom && s <= t && r.start - pad <= t && s < r.end + pad
  }

  /** On a store built from rows, the entries on chrom that share a position
      with [s, t] are exactly the padded intervals of the rows that hit that
      span. */
  lemma StoredHitsSpan(rows: seq<AnnotationRow>, pad: int, ann: AnnIntervals, chrom: string, s: int, t: int, e: Entry)
    requires ann.Valid() && ann.chroms == IndexOf(rows, pad)
    ensures e in Stored(ann.chroms, chrom) && SharesPosition(e, s, t) <==>
              exists i :: 0 <= i < |rows| && Padded(rows[i], pad) == e && RowHitsSpan(rows[i], pad, chrom, s, t)
  {
    IndexOfContents(rows, pad, chrom, e);
    if e in Stored(ann.chroms, chrom) && s <= t && e.start <= t && s < e.end {
      var x := if s < e.start then e.start else s;
      assert s <= x <= t && e.Contains(x);
    }
  }

  /** A lookup finds a row's padded interval exactly when the closed query
      span meets [start - pad, end + pad). */
  lemma PaddedRowLookup(rows: seq<AnnotationRow>, pad: int, ann: AnnIntervals, i: int, s: int, t: int)
    requires ann.Valid() && ann.chroms == IndexOf(rows, pad)
    requires 0 <= i < |rows|
    ensures Padded(rows[i], pad) in ann.Lookup(rows[i].chrom, s, t) <==>
              s <= t && rows[i].start - pad <= t && s < rows[i].end + pad
  {
    StoredHitsSpan(rows, pad, ann, rows[i].chrom, s, t, Padded(rows[i], pad));
  }

  /** The edges of the padding: a point query hits a row's gene from
      start - pad up to end + pad - 1 and misses it just outside, at
      start - pad - 1 and at end + pad; the query [start - pad, end + pad]
      hits it. */
  lemma PaddingEdges(rows: seq<AnnotationRow>, pad: int, ann: AnnIntervals, i: int)
    requires ann.Valid() && ann.chroms == IndexOf(rows, pad)
    requires 0 <= i < |rows|
    ensures var r, e := rows[i], Padded(rows[i], pad);
            && e in ann.Lookup(r.chrom, r.start - pad, r.start - pad)
            && e in ann.Lookup(r.chrom, r.end + pad - 1, r.end + pad - 1)
            && e !in ann.Lookup(r.chrom, r.start - pad - 1, r.start - pad - 1)
            && e !in ann.Lookup(r.chrom, r.end + pad, r.end + pad)
            && e in ann.Lookup(r.chrom, r.start - pad, r.end + pad)
  {
    var r := rows[i];
    IndexOfContents(rows, pad, r.chrom, Padded(r, pad));
    assert Padded(r, pad) in ann.chroms[r.chrom];
    PaddedRowLookup(rows, pad, ann, i, r.start - pad, r.start - pad);
    PaddedRowLookup(rows, pad, ann, i, r.end + pad - 1, r.end + pad - 1);
    PaddedRowLookup(rows, pad, ann, i, r.start - pad - 1, r.start - pad - 1);
    PaddedRowLookup(rows, pad, ann, i, r.end + pad, r.end + pad);
    PaddedRowLookup(rows, pad, ann, i, r.start - pad, r.end + pad);
  }

  /** How building the index ends. */
  datatype BuildStatus =
    | Built
      /** The row's padded interval is empty, which the interval tree refuses. */
    | NullInterval(row: nat)

  /** `read_annotations`: reads the rows in order, collecting each tier and
      storing each padded interval; stops at the first row whose padded
      interval is empty, with that row's tier already collected. On that
      error the program raises, so the index returned with `NullInterval`
      stands in for a state it never hands back (there, the failing row's
      chromosome would already hold an empty tree). */
  method ReadAnnotations(pad: int, rows: seq<AnnotationRow>)
    returns (status: BuildStatus, tiers: set<int>, intervals: AnnIntervals)
    ensures fresh(intervals) && intervals.Valid()
    ensures status == Built ==>
              && (forall i :: 0 <= i < |rows| ==> rows[i].start - pad < rows[i].end + pad)
              && tiers == TiersOf(rows)
              && intervals.chroms == IndexOf(rows, pad)
    ensures status.NullInterval? ==>
              && status.row < |rows|
              && rows[status.row].start - pad >= rows[status.row].end + pad
              && (forall i :: 0 <= i < status.row ==> rows[i].start - pad < rows[i].end + pad)
              && tiers == TiersOf(rows[..status.row + 1])
              && intervals.chroms == IndexOf(rows[..status.row], pad)
  {
    intervals := new AnnIntervals();
    tiers := {};
    var i := 0;
    while i < |rows|
      invariant 0 <= i <= |rows|
      invariant fresh(intervals) && intervals.Valid()
      invariant forall k :: 0 <= k < i ==> rows[k].start - pad < rows[k].end + pad
      invariant tiers == TiersOf(rows[..i])
      invariant intervals.chroms == IndexOf(rows[..i], pad)
    {
      var row := rows[i];
      tiers := tiers + {row.tier};
      assert TiersOf(rows[..i + 1]) == TiersOf(rows[..i]) + {row.tier} by {
        assert forall k :: 0 <= k < i ==> rows[..i + 1][k] == rows[..i][k];
      }
      var val := Payload(row.gene, row.tier);
      var thisStart := row.start - pad;
      var thisEnd := row.end + pad;
      if thisStart >= thisEnd {
        status := NullInterval(i);
        return;
      }
      intervals.Add(row.chrom, thisStart, thisEnd, val);
      assert rows[..i + 1][..i] == rows[..i];
      i := i + 1;
    }
    assert rows[..i] == rows;
    status := Built;
  }
}
