/** `load_data` (app/modules/clustering/cluster_maker.py:12-37): read the
    'Comment' column of a CSV file, turn missing cells into empty strings,
    and keep only the comments of at least 23 characters.

    Reading the file with pandas is not modelled: the file is given as what
    `read_csv` makes of it, one cell per row of the 'Comment' column, `None`
    for a missing (NaN) cell and otherwise the cell's `str` rendering. A
    string is a sequence of Unicode scalar values, so `|s|` is Python's
    `len`. */
module Loader {
  import opened Outcomes

  /** What `read_csv` yields: an unreadable file, or a table whose
      'Comment' column may be absent. */
  datatype Csv =
    | Unreadable
    | Table(commentColumn: Option<seq<Option<string>>>)

  /** The triple `load_data` returns: `short_comments_list`,
      `long_comments_list`, and the filtered frame, reduced to its 'Comment'
      column (`None` on error). */
  datatype Loaded = Loaded(short: seq<string>, long: seq<string>, frame: Option<seq<string>>)

  /** The length filter of lines 27 and 31. */
  const MinCommentLength: nat := 23

  /** `fillna('')` followed by `astype(str)` (lines 21-24). */
  function FillMissing(cells: seq<Option<string>>): (texts: seq<string>)
    ensures |texts| == |cells|
    ensures forall i :: 0 <= i < |cells| ==>
              texts[i] == (if cells[i].Some? then cells[i].value else "")
  {
    if cells == [] then []
    else [if cells[0].Some? then cells[0].value else ""] + FillMissing(cells[1..])
  }

  /** The comments of at least `MinCommentLength` characters, in order. */
  function KeepLong(texts: seq<string>): (kept: seq<string>)
    ensures |kept| <= |texts|
  {
    if texts == [] then []
    else (if |texts[0]| >= MinCommentLength then [texts[0]] else []) + KeepLong(texts[1..])
  }

  /** `load_data`: any failure gives `([], [], None)`. Besides an
      unreadable file and a missing 'Comment' column, a file with a header
      but no rows fails too: applying the length test to an empty column
      yields an empty object-typed series, which pandas takes as a list of
      column labels rather than a row mask (line 27), so no column is
      selected and line 30 raises `KeyError`. */
  function LoadData(csv: Csv): (r: Loaded)
    ensures r.frame.None? <==> (csv.Unreadable? || csv.commentColumn.None? || csv.commentColumn.value == [])
    ensures r.frame.None? ==> r.short == [] && r.long == []
    ensures r.frame.Some? ==> r.frame.value == r.short
  {
    match csv
    case Unreadable => Loaded([], [], None)
    case Table(None) => Loaded([], [], None)
    case Table(Some(cells)) =>
      if cells == [] then Loaded([], [], None)
      else
        var short := KeepLong(FillMissing(cells));
        Loaded(short, KeepLong(short), Some(short))
  }

  /** Every kept comment is long enough. */
  lemma {:induction false} KeepLongIsLong(texts: seq<string>)
    ensures forall s :: s in KeepLong(texts) ==> |s| >= MinCommentLength
  {
    if texts != [] {
      KeepLongIsLong(texts[1..]);
    }
  }

  /** The filter works piece by piece: filtering a concatenation is
      concatenating the filtered pieces, so the kept comments stay in their
      original order. */
  lemma {:induction false} KeepLongAppend(a: seq<string>, b: seq<string>)
    ensures KeepLong(a + b) == KeepLong(a) + KeepLong(b)
  {
    if a != [] {
      assert (a + b)[1..] == a[1..] + b;
      KeepLongAppend(a[1..], b);
    } else {
      assert a + b == b;
    }
  }

  /** On one comment the filter keeps it exactly when it is long enough;
      with `KeepLongAppend` this determines the filter on every input. */
  lemma KeepLongSingle(s: string)
    ensures KeepLong([s]) == (if |s| >= MinCommentLength then [s] else [])
  {
    assert [s][1..] == [];
  }

  /** A comment is kept exactly when it occurs in the input and is long
      enough. */
  lemma {:induction false} KeepLongMembership(texts: seq<string>, s: string)
    ensures s in KeepLong(texts) <==> s in texts && |s| >= MinCommentLength
  {
    if texts != [] {
      KeepLongMembership(texts[1..], s);
      assert texts == [texts[0]] + texts[1..];
    }
  }

  /** Filtering twice keeps the same comments as filtering once. */
  lemma {:induction false} KeepLongIdempotent(texts: seq<string>)
    ensures KeepLong(KeepLong(texts)) == KeepLong(texts)
  {
    if texts != [] {
      var head := if |texts[0]| >= MinCommentLength then [texts[0]] else [];
      KeepLongIdempotent(texts[1..]);
      KeepLongAppend(head, KeepLong(texts[1..]));
      if head != [] {
        KeepLongSingle(texts[0]);
      }
    }
  }

  /** The second filter of line 31 is redundant: the long list always equals
      the short list, and both hold only comments of at least 23
      characters. */
  lemma LongEqualsShort(csv: Csv)
    ensures LoadData(csv).long == LoadData(csv).short
    ensures forall s :: s in LoadData(csv).short ==> |s| >= MinCommentLength
  {
    if csv.Table? && csv.commentColumn.Some? {
      var texts := FillMissing(csv.commentColumn.value);
      KeepLongIdempotent(texts);
      KeepLongIsLong(texts);
    }
  }

  /** A missing cell never survives the filter: only present comments of at
      least 23 characters are loaded. */
  lemma LoadedCommentsArePresent(cells: seq<Option<string>>, s: string)
    ensures s in LoadData(Table(Some(cells))).short <==>
              Some(s) in cells && |s| >= MinCommentLength
  {
    var texts := FillMissing(cells);
    KeepLongMembership(texts, s);
    if s in texts && |s| >= MinCommentLength {
      var i :| 0 <= i < |texts| && texts[i] == s;
      assert cells[i] == Some(s);
    }
    if Some(s) in cells {
      var i :| 0 <= i < |cells| && cells[i] == Some(s);
      assert texts[i] == s;
    }
  }
}
