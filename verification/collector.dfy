/** The pure logic of the comments collector
    (app/modules/commentsextractor/comments_collector.py and its caller
    run_comments_collector.py): the video id of a URL, the extraction of
    comment fields from API items into four parallel lists, and the CSV
    save with its empty guard and file-name sanitisation.

    The YouTube client, the page requests and the CSV writer are not
    modelled: an API response is given as data, and saving yields a
    description of the file that would be written. */
module Collector {
  import opened Outcomes

  // ---------------------------------------------------------------------
  // File-name sanitisation (line 59)
  // ---------------------------------------------------------------------

  /** The characters of the class `[<>:"/\\|?*]`. */
  predicate Forbidden(c: char)
  {
    c == '<' || c == '>' || c == ':' || c == '"' || c == '/' || c == '\\' || c == '|' || c == '?' || c == '*'
  }

  /** No character of `s` is forbidden. */
  predicate Clean(s: string)
  {
    forall i :: 0 <= i < |s| ==> !Forbidden(s[i])
  }

  /** `re.sub(r'[<>:"/\\|?*]', '_', filename)`. */
  function Sanitize(s: string): (r: string)
    ensures |r| == |s|
    ensures forall i :: 0 <= i < |s| ==> r[i] == (if Forbidden(s[i]) then '_' else s[i])
  {
    if s == [] then []
    else [if Forbidden(s[0]) then '_' else s[0]] + Sanitize(s[1..])
  }

  /** The sanitised name has no forbidden character. */
  lemma SanitizeIsClean(s: string)
    ensures Clean(Sanitize(s))
  {
  }

  /** A clean name is left as it is, so sanitising twice is sanitising
      once. */
  lemma SanitizeFixesClean(s: string)
    ensures Sanitize(s) == s <==> Clean(s)
  {
    if Clean(s) {
      assert forall i :: 0 <= i < |s| ==> Sanitize(s)[i] == s[i];
    } else {
      var i :| 0 <= i < |s| && Forbidden(s[i]);
      assert Sanitize(s)[i] != s[i];
    }
  }

  lemma SanitizeIdempotent(s: string)
    ensures Sanitize(Sanitize(s)) == Sanitize(s)
  {
    SanitizeIsClean(s);
    SanitizeFixesClean(Sanitize(s));
  }

  // ---------------------------------------------------------------------
  // Video id of a URL (lines 37-47)
  // ---------------------------------------------------------------------

  /** What `urlparse` and `parse_qs` make of a URL: the query parameters,
      each with its list of values, and the path. */
  datatype ParsedUrl = ParsedUrl(query: map<string, seq<string>>, path: string)

  /** `s.split(sep)`: the pieces between occurrences of `sep`, at least
      one. */
  function Split(s: string, sep: char): (parts: seq<string>)
    ensures |parts| >= 1
    ensures forall k :: 0 <= k < |parts| ==> sep !in parts[k]
    ensures |parts| == 1 ==> parts[0] == s
  {
    if s == [] then [""]
    else
      var rest := Split(s[1..], sep);
      if s[0] == sep then [""] + rest
      else [[s[0]] + rest[0]] + rest[1..]
  }

  /** `sep.join(parts)`. */
  function Join(parts: seq<string>, sep: char): string
    requires |parts| >= 1
  {
    if |parts| == 1 then parts[0]
    else parts[0] + [sep] + Join(parts[1..], sep)
  }

  /** Joining the pieces gives back the string. */
  lemma {:induction false} JoinSplit(s: string, sep: char)
    ensures Join(Split(s, sep), sep) == s
  {
    if s != [] {
      var rest := Split(s[1..], sep);
      JoinSplit(s[1..], sep);
      if s[0] == sep {
        assert ([""] + rest)[1..] == rest;
        assert s == [s[0]] + s[1..];
      } else {
        var parts := [[s[0]] + rest[0]] + rest[1..];
        if |rest| == 1 {
          assert s == [s[0]] + rest[0];
        } else {
          assert parts[1..] == rest[1..];
          assert Join(rest, sep) == rest[0] + [sep] + Join(rest[1..], sep);
          assert s == [s[0]] + s[1..];
        }
      }
    }
  }

  /** Splitting a join of pieces free of `sep` gives back the pieces. */
  lemma {:induction false} SplitJoin(parts: seq<string>, sep: char)
    requires |parts| >= 1
    requires forall k :: 0 <= k < |parts| ==> sep !in parts[k]
    ensures Split(Join(parts, sep), sep) == parts
  {
    if |parts| == 1 {
      SplitPiece(parts[0], [], sep);
      assert parts[0] + [] == parts[0];
      assert Split([], sep) == [""];
      assert parts[0] + "" == parts[0];
    } else {
      var tail := Join(parts[1..], sep);
      SplitJoin(parts[1..], sep);
      var after := Split([sep] + tail, sep);
      SplitPiece(parts[0], [sep] + tail, sep);
      assert after == [""] + parts[1..] by {
        assert ([sep] + tail)[1..] == tail;
      }
      assert after[0] == "" && after[1..] == parts[1..];
      assert parts[0] + "" == parts[0];
      assert parts[0] + [sep] + tail == parts[0] + ([sep] + tail);
      assert parts == [parts[0]] + parts[1..];
    }
  }

  /** A `sep`-free piece in front of a string extends its first piece. */
  lemma {:induction false} SplitPiece(piece: string, s: string, sep: char)
    requires sep !in piece
    ensures var after := Split(s, sep);
            Split(piece + s, sep) == [piece + after[0]] + after[1..]
  {
    if piece != [] {
      SplitPiece(piece[1..], s, sep);
      assert (piece + s)[1..] == piece[1..] + s;
      assert piece + Split(s, sep)[0] == [piece[0]] + (piece[1..] + Split(s, sep)[0]);
    } else {
      var after := Split(s, sep);
      assert piece + s == s;
      assert piece + after[0] == after[0];
      assert after == [after[0]] + after[1..];
    }
  }

  /** The last piece is the suffix after the last `sep`: the whole string
      when there is a single piece, and otherwise the part after a `sep`. */
  lemma {:induction false} LastPieceIsSuffix(s: string, sep: char)
    ensures var parts := Split(s, sep);
            var last := parts[|parts| - 1];
            && |last| <= |s|
            && last == s[|s| - |last|..]
            && (|parts| == 1 ==> last == s)
            && (|parts| >= 2 ==> |last| < |s| && s[|s| - |last| - 1] == sep)
  {
    if s != [] {
      var rest := Split(s[1..], sep);
      var last := rest[|rest| - 1];
      LastPieceIsSuffix(s[1..], sep);
      SplitStep(s, sep);
      if s[0] == sep || |rest| >= 2 {
        assert s[1..][|s[1..]| - |last|..] == s[|s| - |last|..];
        if |rest| >= 2 {
          assert s[1..][|s[1..]| - |last| - 1] == s[|s| - |last| - 1];
        }
      }
    }
  }

  /** A separator in front adds a piece; a character in front joins the
      first piece, so the last piece is unchanged unless it is the only one. */
  lemma SplitStep(s: string, sep: char)
    requires s != []
    ensures var rest := Split(s[1..], sep);
            var parts := Split(s, sep);
            && (s[0] == sep ==> |parts| == |rest| + 1)
            && (s[0] != sep ==> |parts| == |rest|)
            && (s[0] == sep || |rest| >= 2 ==> parts[|parts| - 1] == rest[|rest| - 1])
  {
  }

  /** `get_id`: the first `v` query value, otherwise the last piece of the
      path (possibly empty). The `None` fall-through of line 46 is dead:
      splitting always yields a piece. */
  function GetId(url: ParsedUrl): (id: Option<string>)
    ensures id.Some?
    ensures "v" in url.query && url.query["v"] != [] ==> id.value == url.query["v"][0]
    ensures !("v" in url.query && url.query["v"] != []) ==> '/' !in id.value
  {
    if "v" in url.query && url.query["v"] != [] then Some(url.query["v"][0])
    else
      var pth := Split(url.path, '/');
      if |pth| > 0 then Some(pth[|pth| - 1]) else None
  }

  /** Without a `v` parameter the id is what follows the last `/` of the
      path. */
  lemma GetIdFromPath(url: ParsedUrl)
    requires !("v" in url.query && url.query["v"] != [])
    ensures var id := GetId(url).value;
            && |id| <= |url.path|
            && id == url.path[|url.path| - |id|..]
            && '/' !in id
            && (|id| == |url.path| || url.path[|url.path| - |id| - 1] == '/')
  {
    LastPieceIsSuffix(url.path, '/');
  }

  // ---------------------------------------------------------------------
  // Per-item extraction (lines 118-131)
  // ---------------------------------------------------------------------

  /** The parts of a comment-thread item the collector reads; a `None`
      field is a key missing from the response. */
  datatype CommentSnippet = CommentSnippet(authorDisplayName: Option<string>,
                                           textDisplay: Option<string>,
                                           likeCount: Option<int>)
  datatype TopLevelComment = TopLevelComment(id: Option<string>, snippet: Option<CommentSnippet>)
  datatype ItemSnippet = ItemSnippet(topLevelComment: Option<TopLevelComment>)
  datatype Item = Item(snippet: Option<ItemSnippet>)

  /** The four values one item contributes. */
  datatype CommentRecord = CommentRecord(text: string, id: string, likes: int, author: string)

  /** The four parallel lists `comments`, `commentsId`, `likesCount` and
      `authors`. */
  datatype Columns = Columns(comments: seq<string>, ids: seq<string>, likes: seq<int>, authors: seq<string>)

  const NoColumns := Columns([], [], [], [])

  /** The four lists have one entry per row. */
  predicate Aligned(cols: Columns)
  {
    |cols.ids| == |cols.comments| && |cols.likes| == |cols.comments| && |cols.authors| == |cols.comments|
  }

  /** Lines 120-124: all five lookups of an item, any of which may raise
      `KeyError`; the record exists exactly when every field is present. */
  function ReadItem(item: Item): (r: Option<CommentRecord>)
    ensures r.Some? <==>
              && item.snippet.Some?
              && item.snippet.value.topLevelComment.Some?
              && item.snippet.value.topLevelComment.value.id.Some?
              && item.snippet.value.topLevelComment.value.snippet.Some?
              && item.snippet.value.topLevelComment.value.snippet.value.authorDisplayName.Some?
              && item.snippet.value.topLevelComment.value.snippet.value.textDisplay.Some?
              && item.snippet.value.topLevelComment.value.snippet.value.likeCount.Some?
    ensures r.Some? ==>
              var comment := item.snippet.value.topLevelComment.value;
              var fields := comment.snippet.value;
              r.value == CommentRecord(fields.textDisplay.value, comment.id.value,
                                       fields.likeCount.value, fields.authorDisplayName.value)
  {
    match item.snippet
    case None => None
    case Some(s) =>
      match s.topLevelComment
      case None => None
      case Some(comment) =>
        match comment.snippet
        case None => None
        case Some(cs) =>
          if cs.authorDisplayName.None? || cs.textDisplay.None? || comment.id.None? || cs.likeCount.None? then None
          else Some(CommentRecord(cs.textDisplay.value, comment.id.value, cs.likeCount.value, cs.authorDisplayName.value))
  }

  /** The records of the well-formed items, in item order. */
  function Records(items: seq<Item>): (rs: seq<CommentRecord>)
    ensures |rs| <= |items|
    ensures forall r :: r in rs ==> exists j :: 0 <= j < |items| && ReadItem(items[j]) == Some(r)
    ensures forall j :: 0 <= j < |items| && ReadItem(items[j]).Some? ==> ReadItem(items[j]).value in rs
  {
    if items == [] then []
    else
      var n := |items| - 1;
      var r := ReadItem(items[n]);
      Records(items[..n]) + (if r.Some? then [r.value] else [])
  }

  /** Appends one record to the four lists. */
  function AddRecord(cols: Columns, r: CommentRecord): Columns
  {
    Columns(cols.comments + [r.text], cols.ids + [r.id], cols.likes + [r.likes], cols.authors + [r.author])
  }

  /** The four lists holding `rs` after `cols`. */
  function AddRecords(cols: Columns, rs: seq<CommentRecord>): (r: Columns)
    ensures |r.comments| == |cols.comments| + |rs|
    ensures Aligned(cols) ==> Aligned(r)
  {
    if rs == [] then cols
    else AddRecord(AddRecords(cols, rs[..|rs| - 1]), rs[|rs| - 1])
  }

  /** Row `k` of the lists built from `rs` holds the four fields of
      `rs[k]`: the lists never drift apart. */
  lemma {:induction false} AddRecordsRow(rs: seq<CommentRecord>, k: nat)
    requires k < |rs|
    ensures var cols := AddRecords(NoColumns, rs);
            && cols.comments[k] == rs[k].text
            && cols.ids[k] == rs[k].id
            && cols.likes[k] == rs[k].likes
            && cols.authors[k] == rs[k].author
  {
    var n := |rs| - 1;
    if k < n {
      AddRecordsRow(rs[..n], k);
    }
  }

  /** A malformed item contributes to none of the four lists. */
  lemma MalformedContributesNothing(items: seq<Item>, bad: Item)
    requires ReadItem(bad).None?
    ensures Records(items + [bad]) == Records(items)
  {
    assert (items + [bad])[..|items|] == items;
  }

  /** Items are read independently: the records of two item lists put
      together are the records of each, put together. */
  lemma {:induction false} RecordsAppend(a: seq<Item>, b: seq<Item>)
    ensures Records(a + b) == Records(a) + Records(b)
    decreases |b|
  {
    if b == [] {
      assert a + b == a;
    } else {
      var n := |b| - 1;
      assert (a + b)[..|a + b| - 1] == a + b[..n];
      assert (a + b)[|a + b| - 1] == b[n];
      RecordsAppend(a, b[..n]);
    }
  }

  /** The `for item in response['items']` loop of lines 118-132 as written:
      all five fields are read before any of the four appends. */
  method ExtractPage(cols: Columns, items: seq<Item>) returns (r: Columns)
    requires Aligned(cols)
    ensures r == AddRecords(cols, Records(items))
    ensures Aligned(r)
  {
    r := cols;
    var i := 0;
    while i < |items|
      invariant 0 <= i <= |items|
      invariant r == AddRecords(cols, Records(items[..i]))
    {
      var record := ReadItem(items[i]);
      ghost var before := Records(items[..i]);
      assert items[..i + 1][..i] == items[..i];
      if record.Some? {
        assert Records(items[..i + 1]) == before + [record.value];
        assert (before + [record.value])[..|before|] == before;
        r := Columns(r.comments + [record.value.text], r.ids + [record.value.id],
                     r.likes + [record.value.likes], r.authors + [record.value.author]);
      } else {
        assert Records(items[..i + 1]) == before + [];
        assert before + [] == before;
      }
      i := i + 1;
    }
    assert items[..i] == items;
  }

  /** Adding records in two batches is adding them in one. */
  lemma {:induction false} AddRecordsAppend(cols: Columns, a: seq<CommentRecord>, b: seq<CommentRecord>)
    ensures AddRecords(AddRecords(cols, a), b) == AddRecords(cols, a + b)
    decreases |b|
  {
    if b == [] {
      assert a + b == a;
    } else {
      var n := |b| - 1;
      assert (a + b)[..|a + b| - 1] == a + b[..n];
      AddRecordsAppend(cols, a, b[..n]);
    }
  }

  // ---------------------------------------------------------------------
  // `comments_helper`, `save_to_csv` and `_get_comments`
  // ---------------------------------------------------------------------

  /** What the API returns for one video: the title request failed, the
      first comment page failed, or the title and the pages fetched before
      the last page or a failing next-page request. */
  datatype Fetch =
    | TitleFailed
    | FirstPageFailed(title: string)
    | Fetched(title: string, pages: seq<seq<Item>>)

  /** All items of the fetched pages, in page order. */
  function AllItems(pages: seq<seq<Item>>): seq<Item>
  {
    if pages == [] then [] else AllItems(pages[..|pages| - 1]) + pages[|pages| - 1]
  }

  /** `comments_helper` (lines 73-160): the output dictionary, `None` for
      the empty dictionary `{}` of lines 95 and 107, and the title. */
  datatype Helped = Helped(output: Option<Columns>, title: string)

  function CommentsHelper(fetch: Fetch): (r: Helped)
    ensures r.output.Some? <==> fetch.Fetched?
    ensures r.output.Some? ==> Aligned(r.output.value)
  {
    match fetch
    case TitleFailed => Helped(None, "")
    case FirstPageFailed(title) => Helped(None, title)
    case Fetched(title, pages) => Helped(Some(AddRecords(NoColumns, Records(AllItems(pages)))), title)
  }

  /** The helper's lists hold the records of all fetched pages, one row
      per well-formed item, in order. */
  lemma {:induction false} CommentsHelperRows(title: string, pages: seq<seq<Item>>)
    ensures var cols := CommentsHelper(Fetched(title, pages)).output.value;
            |cols.comments| == |Records(AllItems(pages))|
    ensures pages != [] ==>
              var n := |pages| - 1;
              CommentsHelper(Fetched(title, pages)).output.value
              == AddRecords(CommentsHelper(Fetched(title, pages[..n])).output.value, Records(pages[n]))
  {
    if pages != [] {
      var n := |pages| - 1;
      RecordsAppend(AllItems(pages[..n]), pages[n]);
      AddRecordsAppend(NoColumns, Records(AllItems(pages[..n])), Records(pages[n]));
    }
  }

  /** What saving does: skips (nothing written, possibly after an error
      message), or writes the table to the path. */
  datatype Saved = Skipped | Written(path: string, table: Columns)

  /** The `KeyError` of line 54 on a dictionary without a 'Comment' key. */
  datatype SaveError = MissingCommentKey

  /** `f'./data/{safe_filename}.csv'` (line 67). */
  function CsvPath(filename: string): (path: string)
    ensures |path| == |filename| + 11
    ensures path[..7] == "./data/" && path[|path| - 4..] == ".csv"
    ensures path[7..|path| - 4] == Sanitize(filename)
    ensures Clean(path[7..|path| - 4])
  {
    SanitizeIsClean(filename);
    assert ("./data/" + Sanitize(filename) + ".csv")[7..7 + |filename|] == Sanitize(filename);
    "./data/" + Sanitize(filename) + ".csv"
  }

  /** Lines 61-68 on a dictionary that has comments: `pd.DataFrame` raises
      on lists of different lengths (the error is printed and nothing is
      written); a frame with at least one row is not empty. */
  function WriteTable(cols: Columns, filename: string): (r: Saved)
    requires cols.comments != []
    ensures r.Written? <==> Aligned(cols)
  {
    if Aligned(cols) then Written(CsvPath(filename), cols) else Skipped
  }

  /** `save_to_csv` as written (lines 50-70): the guard of line 54 indexes
      'Comment' outside the `try`, so the empty dictionary raises. */
  function SaveToCsvAsWritten(output: Option<Columns>, filename: string): (r: Result<Saved, SaveError>)
    ensures r.Failure? <==> output.None?
    ensures r.Success? && r.value.Written? ==> r.value.table == output.value && r.value.table.comments != []
  {
    match output
    case None => Failure(MissingCommentKey)
    case Some(cols) =>
      if cols.comments == [] then Success(Skipped) else Success(WriteTable(cols, filename))
  }

  /** `save_to_csv` as evidently intended: a dictionary without comments,
      the empty one included, is skipped. */
  function SaveToCsv(output: Option<Columns>, filename: string): (r: Saved)
    ensures r.Written? <==> output.Some? && output.value.comments != [] && Aligned(output.value)
    ensures r.Written? ==> r.table == output.value && r.path == CsvPath(filename)
  {
    match output
    case None => Skipped
    case Some(cols) =>
      if cols.comments == [] then Skipped else WriteTable(cols, filename)
  }

  /** The two versions agree wherever the written one does not raise. */
  lemma SaveToCsvAgrees(output: Option<Columns>, filename: string)
    requires output.Some?
    ensures SaveToCsvAsWritten(output, filename) == Success(SaveToCsv(output, filename))
  {
  }

  /** `_get_comments` as written (run_comments_collector.py:23-39): the
      video id, the helper, the save; the title on success. The API is the
      parameter `fetch`. */
  function GetCommentsAsWritten(url: ParsedUrl, fetch: string -> Fetch): (r: Result<(string, Saved), SaveError>)
    ensures r.Failure? <==> !fetch(GetId(url).value).Fetched?
  {
    var helped := CommentsHelper(fetch(GetId(url).value));
    match SaveToCsvAsWritten(helped.output, helped.title)
    case Failure(e) => Failure(e)
    case Success(saved) => Success((helped.title, saved))
  }

  /** The discrepancy: when the title request fails, the helper's empty
      dictionary makes the save raise `KeyError` instead of skipping. */
  lemma TitleFailureRaises(url: ParsedUrl, fetch: string -> Fetch)
    requires fetch(GetId(url).value) == TitleFailed
    ensures GetCommentsAsWritten(url, fetch) == Failure(MissingCommentKey)
  {
  }

  /** `_get_comments` with the intended save. */
  function GetComments(url: ParsedUrl, fetch: string -> Fetch): (r: (string, Saved))
    ensures r.1.Written? ==> Aligned(r.1.table) && r.1.table.comments != []
  {
    var helped := CommentsHelper(fetch(GetId(url).value));
    (helped.title, SaveToCsv(helped.output, helped.title))
  }

  /** With the intended save, `_get_comments` never raises, returns the
      title the helper gave, and writes a file exactly when at least one
      well-formed comment was fetched; the parallel lists being aligned,
      the frame construction never fails. */
  lemma GetCommentsWritesExactlyWhenCommented(url: ParsedUrl, fetch: string -> Fetch)
    ensures var f := fetch(GetId(url).value);
            var r := GetComments(url, fetch);
            && r.0 == (if f.TitleFailed? then "" else f.title)
            && (r.1.Written? <==> f.Fetched? && Records(AllItems(f.pages)) != [])
  {
    var f := fetch(GetId(url).value);
    if f.Fetched? {
      CommentsHelperRows(f.title, f.pages);
    }
  }
}
