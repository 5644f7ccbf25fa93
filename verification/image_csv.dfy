/** image2csv.py: cutting the CSV out of a fenced model reply, the error fallback,
    and where the CSV is saved. */
module ImageCsv {
  import opened Wrappers
  import opened Text
  import opened Naming

  /** Directory the CSV files are saved in (shared with image2md.py). */
  const ResultsDir := "md_results"

  /** The opening fence the reply is split on. */
  const CsvFence := "```csv"

  /** The closing fence. */
  const Fence := "```"

  /** `csv_content.split("```csv")[1].split("```")[0]`: the text after the first
      opening fence, cut at the first closing fence. Indexing piece 1 of a split that
      found no opening fence raises `IndexError`. */
  function FencedSegment(text: string): (r: Result<string, PyError>)
    ensures r.Success? <==> Contains(text, CsvFence)
    ensures r.Failure? ==> r.error == ListIndexOutOfRange
    ensures r.Success? ==> !Contains(r.value, Fence)
    ensures r.Success? ==> r.value <= text[Find(text, CsvFence).value + |CsvFence|..]
    ensures r.Success? ==>
      r.value == BeforeFirst(BeforeFirst(text[Find(text, CsvFence).value + |CsvFence|..], CsvFence), Fence)
  {
    var pieces := Split(text, CsvFence);
    if |pieces| < 2 then Failure(ListIndexOutOfRange)
    else
      SplitLeadingPieces(text, CsvFence);
      SplitLeadingPieces(pieces[1], Fence);
      Success(Split(pieces[1], Fence)[0])
  }

  /** `"\n".join(segment.split("\n")[1:])`: the segment without its first line. */
  function DropFirstLine(segment: string): (r: string)
    ensures r == (match Find(segment, "\n")
                  case None => ""
                  case Some(p) => segment[p + 1..])
  {
    JoinAfterFirstPiece(segment, "\n");
    Join("\n", Split(segment, "\n")[1..])
  }

  /** The dropped first line holds no newline, and dropping it cannot
      bring a closing fence into the text. */
  lemma DropFirstLineFacts(segment: string)
    requires !Contains(segment, Fence)
    ensures !Contains(DropFirstLine(segment), Fence)
    ensures Find(segment, "\n").Some? ==> '\n' !in segment[..Find(segment, "\n").value]
  {
    if Find(segment, "\n").Some? {
      var p := Find(segment, "\n").value;
      SuffixKeepsAbsence(segment, Fence, p + 1);
      forall j | 0 <= j < p ensures segment[j] != '\n' {
        assert !OccursAt(segment, "\n", j);
        assert segment[j..j + 1] == [segment[j]];
      }
    }
  }

  /** The CSV text `image_to_markdown` extracts from a reply, or the exception it hits. */
  function ExtractCsv(text: string): (r: Result<string, PyError>)
    ensures r.Success? <==> Contains(text, CsvFence)
    ensures r.Failure? ==> r.error == ListIndexOutOfRange
    ensures r.Success? ==> !Contains(r.value, Fence)
    ensures r.Success? ==>
      var segment := FencedSegment(text).value;
      (match Find(segment, "\n")
       case None => r.value == ""
       case Some(p) => r.value == segment[p + 1..] && '\n' !in segment[..p])
  {
    match FencedSegment(text)
    case Failure(e) => Failure(e)
    case Success(segment) =>
      var csv := DropFirstLine(segment);
      DropFirstLineFacts(segment);
      Success(csv)
  }

  /** Cut at the first closing fence after the opening one: when the reply has no
      run of four backticks after the opening fence, the literal double split
      is exactly this cut. */
  lemma FencedSegmentIsFirstBlock(text: string)
    requires Contains(text, CsvFence)
    requires !Contains(text[Find(text, CsvFence).value + |CsvFence|..], "````")
    ensures FencedSegment(text) == Success(BeforeFirst(text[Find(text, CsvFence).value + |CsvFence|..], Fence))
  {
    CutAtOpeningFenceFirst(text[Find(text, CsvFence).value + |CsvFence|..]);
  }

  /** Cutting at the next opening fence before cutting at the first closing fence
      changes nothing unless four backticks meet. */
  lemma CutAtOpeningFenceFirst(u: string)
    requires !Contains(u, "````")
    ensures BeforeFirst(BeforeFirst(u, CsvFence), Fence) == BeforeFirst(u, Fence)
  {
    match Find(u, CsvFence)
    case None =>
    case Some(r) =>
      assert u[r..r + 3] == u[r..r + 6][..3];
      assert OccursAt(u, Fence, r);
      var q := Find(u, Fence).value;
      if q + 3 <= r {
        FirstSurvivesCut(u, Fence, r);
      } else if q < r {
        assert OccursAt(u, "````", q) by {
          assert u[q..q + 4] == u[q..q + 3] + [u[q + 3]];
          assert u[q + 3] == u[r..r + 3][q + 3 - r];
        }
        assert false;
      } else {
        NoOccurrenceBeforeFirst(u, Fence, q);
      }
  }

  /** Cutting a text after its first occurrence of `pat` keeps that occurrence first. */
  lemma FirstSurvivesCut(u: string, pat: string, n: nat)
    requires Find(u, pat).Some? && Find(u, pat).value + |pat| <= n <= |u|
    ensures Find(u[..n], pat) == Find(u, pat)
  {
    var q := Find(u, pat).value;
    OccursAtPrefix(u, pat, n, q);
    forall j: nat | j < q ensures !OccursAt(u[..n], pat, j) {
      OccursAtPrefix(u, pat, n, j);
    }
    FindUnique(u[..n], pat, q);
  }

  /** A run of four backticks in front of the next opening fence keeps a stray
      backtick in the segment: "```csv\nx````csv" gives "x`", where the first
      closing fence after the opening one would give "x". */
  lemma FourBacktickRunKeepsBacktick(text: string)
    requires text == "```csv\nx````csv"
    ensures ExtractCsv(text) == Success("x`")
    ensures BeforeFirst(text[|CsvFence|..], Fence) == "\nx"
  {
    assert text[0..6] == CsvFence;
    FindUnique(text, CsvFence, 0);
    var u := text[6..];
    assert u == "\nx````csv";
    var piece := StrayBacktickPiece(u);
    assert FencedSegment(text) == Success(piece);
    assert piece[0..1] == "\n";
    FindUnique(piece, "\n", 0);
    assert DropFirstLine(piece) == "x`";
  }

  /** The two cuts of `FencedSegment` on the text after the opening fence of the
      example above. */
  lemma StrayBacktickPiece(u: string) returns (piece: string)
    requires u == "\nx````csv"
    ensures piece == "\nx`"
    ensures BeforeFirst(BeforeFirst(u, CsvFence), Fence) == piece
    ensures BeforeFirst(u, Fence) == "\nx"
  {
    NotOccursAtFirstChar(u, Fence, 0);
    NotOccursAtFirstChar(u, Fence, 1);
    assert u[2..5] == Fence;
    FindUnique(u, Fence, 2);
    NotOccursAtFirstChar(u, CsvFence, 0);
    NotOccursAtFirstChar(u, CsvFence, 1);
    assert !OccursAt(u, CsvFence, 2) by { assert u[2..8][3] != CsvFence[3]; }
    assert u[3..9] == CsvFence;
    FindUnique(u, CsvFence, 3);
    piece := u[..3];
    assert BeforeFirst(u, CsvFence) == piece;
    NotOccursAtFirstChar(piece, Fence, 0);
    assert forall j: nat :: j >= 1 ==> !OccursAt(piece, Fence, j);
    assert !Contains(piece, Fence);
  }

  /** The worked example: only the remainder of the fence line is dropped, so the
      header row is kept. */
  lemma HeaderRowIsKept()
    ensures ExtractCsv("```csv\nheader\nrow\n```") == Success("header\nrow\n")
  {
    var text := "```csv\nheader\nrow\n```";
    FindUnique(text, CsvFence, 0);
    var u := text[6..];
    assert u == "\nheader\nrow\n```";
    assert forall j :: 0 <= j < 12 ==> u[j] != '`';
    forall j: nat | j < 12 ensures !OccursAt(u, Fence, j) && !OccursAt(u, CsvFence, j) {
      NotOccursAtFirstChar(u, Fence, j);
      NotOccursAtFirstChar(u, CsvFence, j);
    }
    assert !Contains(u, CsvFence);
    FindUnique(u, Fence, 12);
    var segment := u[..12];
    assert segment == "\nheader\nrow\n";
    FindUnique(segment, "\n", 0);
    assert segment[1..] == "header\nrow\n";
  }

  /** Where `save_csv` writes: `md_results/<stem>_<timestamp>.csv`. */
  function CsvPath(imagePath: string, timestamp: string): (path: string)
    ensures path == ResultsDir + "/" + ResultFileName(Stem(imagePath), timestamp, "csv")
  {
    var name := ResultFileName(Stem(imagePath), timestamp, "csv");
    assert name[0] != '/' by {
      var stem := Stem(imagePath);
      if |stem| > 0 { assert stem[0] in stem; }
    }
    PathJoin(ResultsDir, name)
  }

  /** The leading words of every error report. */
  const ErrorPrefix := "Error processing image: "

  /** `f"Error processing image: {str(e)}\nType: {type(e)}"`. */
  function ErrorReport(e: PyError): (r: string)
    ensures |r| >= |ErrorPrefix| && r[..|ErrorPrefix|] == ErrorPrefix
  {
    ErrorPrefix + e.message + "\nType: <class '" + e.className + "'>"
  }

  /** What `image_to_markdown` of image2csv.py returns, and what it saved. */
  datatype CsvRun = CsvRun(returned: string, saved: Option<SavedFile<string>>)

  /** `image_to_markdown` of image2csv.py. `reply` stands for reading the image and
      the remote call: the reply text, or the exception either raised. */
  function ImageToCsv(imagePath: string, timestamp: string, reply: Result<string, PyError>): (run: CsvRun)
    ensures run.saved.Some? <==> reply.Success? && Contains(reply.value, CsvFence)
    ensures run.saved.Some? ==>
      && run.saved.value.path == CsvPath(imagePath, timestamp)
      && ExtractCsv(reply.value) == Success(run.saved.value.content)
      && run.returned == "CSV saved to: " + run.saved.value.path + "\n\nContent:\n" + run.saved.value.content
    ensures run.saved.None? ==> |run.returned| >= |ErrorPrefix| && run.returned[..|ErrorPrefix|] == ErrorPrefix
    ensures reply.Success? && run.saved.None? ==> run.returned == ErrorReport(ListIndexOutOfRange)
    ensures reply.Failure? ==> run.saved.None? && run.returned == ErrorReport(reply.error)
  {
    match reply
    case Failure(e) => CsvRun(ErrorReport(e), None)
    case Success(text) =>
      match ExtractCsv(text)
      case Failure(e) => CsvRun(ErrorReport(e), None)
      case Success(csv) =>
        var path := CsvPath(imagePath, timestamp);
        CsvRun("CSV saved to: " + path + "\n\nContent:\n" + csv, Some(SavedFile(path, csv)))
  }

  /** A caller can tell a report of success from a report of failure by its first words. */
  lemma ReportsAreDistinguishable(imagePath: string, timestamp: string, reply: Result<string, PyError>)
    ensures var run := ImageToCsv(imagePath, timestamp, reply);
            run.saved.None? <==> |run.returned| >= |ErrorPrefix| && run.returned[..|ErrorPrefix|] == ErrorPrefix
  {
    var run := ImageToCsv(imagePath, timestamp, reply);
    if run.saved.Some? {
      var path := run.saved.value.path;
      assert run.returned == "CSV saved to: " + path + "\n\nContent:\n" + run.saved.value.content;
      assert run.returned[0] == 'C' != ErrorPrefix[0];
    }
  }
}
