/** video_segmentation.py: the data-URL scan of a segmentation reply, the PyAV
    sampling loop, the temporary frame files and the ffmpeg concat list. */
module VideoAv {
  import opened Wrappers
  import opened Text
  import opened Digits
  import opened Naming
  import opened Sampling

  /** The literal text `data:image/` the pattern starts with. */
  const DataUrlPrefix := "data:image/"

  /** The literal text `;base64,` between media type and payload. */
  const Base64Marker := ";base64,"

  /** The first index at or after `start` holding `stop`, or the end of `s`: where a
      greedy `[^<stop>]*` starting at `start` ends. */
  function RunEnd(s: string, start: nat, stop: char): (e: nat)
    requires start <= |s|
    ensures start <= e <= |s|
    ensures forall k :: start <= k < e ==> s[k] != stop
    ensures e < |s| ==> s[e] == stop
    decreases |s| - start
  {
    if start == |s| || s[start] == stop then start else RunEnd(s, start + 1, stop)
  }

  /** A match of `data:image\/[^;]+;base64,([^"]+)` at position `p` whose media type
      ends at `t` and whose group 1 is `payload`: the media type is one or more
      non-';' characters, and the payload is a maximal non-empty run of non-'"'
      characters. */
  ghost predicate IsMatchWith(s: string, p: nat, t: nat, payload: string) {
    && OccursAt(s, DataUrlPrefix, p)
    && p + |DataUrlPrefix| < t
    && OccursAt(s, Base64Marker, t)
    && (forall k :: p + |DataUrlPrefix| <= k < t ==> s[k] != ';')
    && |payload| >= 1
    && t + |Base64Marker| + |payload| <= |s|
    && s[t + |Base64Marker|..t + |Base64Marker| + |payload|] == payload
    && '"' !in payload
    && (t + |Base64Marker| + |payload| == |s| || s[t + |Base64Marker| + |payload|] == '"')
  }

  /** The pattern matches at `p` with group 1 `payload`. */
  ghost predicate IsMatchAt(s: string, p: nat, payload: string) {
    exists t: nat :: IsMatchWith(s, p, t, payload)
  }

  /** The regular expression tried at position `p`, as the regex engine runs it:
      `[^;]+` runs to the first ';', which must open `;base64,`, and `[^"]+` runs to
      the next '"' or the end. */
  function MatchAt(s: string, p: nat): (r: Option<string>)
    ensures r.Some? ==> IsMatchAt(s, p, r.value)
  {
    if !OccursAt(s, DataUrlPrefix, p) then None
    else
      var t := RunEnd(s, p + |DataUrlPrefix|, ';');
      if t == p + |DataUrlPrefix| || !OccursAt(s, Base64Marker, t) then None
      else
        var e := RunEnd(s, t + |Base64Marker|, '"');
        if e == t + |Base64Marker| then None
        else
          var payload := s[t + |Base64Marker|..e];
          assert '"' !in payload by {
            forall k | 0 <= k < |payload| ensures payload[k] != '"' {
              assert payload[k] == s[t + |Base64Marker| + k];
            }
          }
          assert IsMatchWith(s, p, t, payload);
          Some(payload)
  }

  /** Where the media type of a match ends is fixed by its start. */
  lemma MediaTypeEnd(s: string, p: nat, t: nat, payload: string)
    requires IsMatchWith(s, p, t, payload)
    ensures RunEnd(s, p + |DataUrlPrefix|, ';') == t
  {
    assert s[t] == ';' by { assert s[t..t + |Base64Marker|][0] == s[t]; }
  }

  /** Where the payload of a match ends is fixed by where it starts. */
  lemma PayloadEnd(s: string, start: nat, payload: string)
    requires start + |payload| <= |s|
    requires s[start..start + |payload|] == payload
    requires '"' !in payload
    requires start + |payload| == |s| || s[start + |payload|] == '"'
    ensures RunEnd(s, start, '"') == start + |payload|
  {
    forall k | start <= k < start + |payload| ensures s[k] != '"' {
      assert s[k] == payload[k - start];
    }
  }

  /** Every declarative match is the one `MatchAt` finds: the media type and payload
      are determined by the position. */
  lemma MatchAtComplete(s: string, p: nat, payload: string)
    requires IsMatchAt(s, p, payload)
    ensures MatchAt(s, p) == Some(payload)
  {
    var t: nat :| IsMatchWith(s, p, t, payload);
    MediaTypeEnd(s, p, t, payload);
    PayloadEnd(s, t + |Base64Marker|, payload);
  }

  /** `re.search`: the leftmost position at or after `from` where the pattern matches,
      with its group 1. */
  function Search(s: string, from: nat): (r: Option<(nat, string)>)
    ensures r.Some? ==> from <= r.value.0 && MatchAt(s, r.value.0) == Some(r.value.1)
    ensures r.Some? ==> forall q :: from <= q < r.value.0 ==> MatchAt(s, q).None?
    ensures r.None? ==> forall q :: from <= q ==> MatchAt(s, q).None?
    decreases |s| - from
  {
    if from >= |s| then None
    else
      match MatchAt(s, from)
      case Some(payload) => Some((from, payload))
      case None => Search(s, from + 1)
  }

  /** No match is the fallback case: the scan returns `None` exactly when no
      position of the reply matches the pattern. */
  lemma SearchNoneIffNoMatch(s: string)
    ensures Search(s, 0).None? <==> forall q: nat, g :: !IsMatchAt(s, q, g)
  {
    if Search(s, 0).None? {
      forall q: nat, g | IsMatchAt(s, q, g) ensures false {
        MatchAtComplete(s, q, g);
      }
    }
  }

  /** The match `re.search` reports: one at `p` with none further left. */
  ghost predicate IsLeftmostMatch(s: string, p: nat, payload: string) {
    IsMatchAt(s, p, payload) && forall q: nat, g :: q < p ==> !IsMatchAt(s, q, g)
  }

  /** The scan reports exactly the leftmost match. */
  lemma SearchIsLeftmost(s: string, p: nat, payload: string)
    ensures Search(s, 0) == Some((p, payload)) <==> IsLeftmostMatch(s, p, payload)
  {
    if IsLeftmostMatch(s, p, payload) {
      MatchAtComplete(s, p, payload);
    }
    if Search(s, 0) == Some((p, payload)) {
      forall q: nat, g | q < p && IsMatchAt(s, q, g) ensures false {
        MatchAtComplete(s, q, g);
      }
    }
  }

  /** `segment_colored_objects_with_gemini` of the PyAV script. `reply` is the reply
      text or the exception of the remote call, and `decode(payload)` is the decoded
      image, `None` when base64 or image decoding raises. The result is the decoded
      leftmost payload, or the frame itself when any step fails. */
  function SegmentFrame<F>(frame: F, reply: Result<string, PyError>, decode: string -> Option<F>): (r: F)
    ensures reply.Failure? ==> r == frame
    ensures reply.Success? && (forall q: nat, g :: !IsMatchAt(reply.value, q, g)) ==> r == frame
    ensures forall p: nat, payload :: reply.Success? && IsLeftmostMatch(reply.value, p, payload) ==>
      r == (match decode(payload) case Some(image) => image case None => frame)
    ensures r != frame ==>
      exists p: nat, payload ::
        reply.Success? && IsLeftmostMatch(reply.value, p, payload) && decode(payload) == Some(r)
  {
    match reply
    case Failure(_) => frame
    case Success(text) =>
      SearchNoneIffNoMatch(text);
      match Search(text, 0)
      case None => frame
      case Some((p0, payload0)) =>
        SearchIsLeftmost(text, p0, payload0);
        assert forall p: nat, payload :: IsLeftmostMatch(text, p, payload) ==> p == p0 && payload == payload0 by {
          forall p: nat, payload | IsLeftmostMatch(text, p, payload) ensures p == p0 && payload == payload0 {
            SearchIsLeftmost(text, p, payload);
          }
        }
        match decode(payload0)
        case None => frame
        case Some(image) => image
  }

  /** `f"frame_{processed_count:06d}.jpg"`. */
  function FrameFileName(k: nat): string
  {
    "frame_" + ZeroPad(Decimal(k), 6) + ".jpg"
  }

  /** Reads the frame number back out of a frame file name. */
  function ParseFrameFileName(name: string): (r: Option<nat>)
    ensures r.Some? ==> |name| >= 11 && name[..6] == "frame_" && name[|name| - 4..] == ".jpg"
  {
    if |name| < 11 || name[..6] != "frame_" || name[|name| - 4..] != ".jpg" then None
    else
      var digits := name[6..|name| - 4];
      if forall i :: 0 <= i < |digits| ==> IsDigit(digits[i]) then Some(DigitsValue(digits)) else None
  }

  /** Every frame number, however large, is recoverable from its file name, so the
      names of different frames differ. */
  lemma FrameFileNameRoundTrip(k: nat)
    ensures ParseFrameFileName(FrameFileName(k)) == Some(k)
  {
    var name := FrameFileName(k);
    var padded := ZeroPad(Decimal(k), 6);
    ZeroPadRoundTrip(k, 6);
    assert name[..6] == "frame_";
    assert name[|name| - 4..] == ".jpg";
    assert name[6..|name| - 4] == padded;
  }

  lemma FrameFileNamesDistinct(j: nat, k: nat)
    requires j != k
    ensures FrameFileName(j) != FrameFileName(k)
  {
    FrameFileNameRoundTrip(j);
    FrameFileNameRoundTrip(k);
  }

  /** Below a million frames, file names sort in processing order. */
  lemma FrameFileNamesOrdered(j: nat, k: nat)
    requires j < k < 1000000
    ensures LexLess(FrameFileName(j), FrameFileName(k))
  {
    assert Pow10(6) == 1000000;
    PaddedIsFixed(j, 6);
    PaddedIsFixed(k, 6);
    FixedDigitsOrdered(j, k, 6);
    LexLessEqualLength(FixedDigits(j, 6), FixedDigits(k, 6), ".jpg", ".jpg");
    LexLessCommonPrefix("frame_", FixedDigits(j, 6) + ".jpg", FixedDigits(k, 6) + ".jpg");
    assert FrameFileName(j) == "frame_" + (FixedDigits(j, 6) + ".jpg");
    assert FrameFileName(k) == "frame_" + (FixedDigits(k, 6) + ".jpg");
  }

  /** `os.path.join(temp_dir, f"frame_{k:06d}.jpg")`. */
  function FramePath(tempDir: string, k: nat): string
  {
    PathJoin(tempDir, FrameFileName(k))
  }

  /** A frame path has a newline only if the temporary directory has one. */
  lemma FramePathNoNewline(tempDir: string, k: nat)
    requires '\n' !in tempDir
    ensures '\n' !in FramePath(tempDir, k)
  {
    var name := FrameFileName(k);
    var padded := ZeroPad(Decimal(k), 6);
    ZeroPadRoundTrip(k, 6);
    assert '\n' !in name by {
      forall i | 0 <= i < |name| ensures name[i] != '\n' {
        if 6 <= i < 6 + |padded| {
          assert name[i] == padded[i - 6];
        }
      }
    }
  }

  /** One line of the ffmpeg concat list: `file '<path>'` and a newline. */
  function ConcatLine(path: string): string
  {
    "file '" + path + "'\n"
  }

  /** The contents written to `frames_list.txt`: one line per frame file, in order. */
  function ConcatList(files: seq<string>): string
  {
    if |files| == 0 then "" else ConcatLine(files[0]) + ConcatList(files[1..])
  }

  /** The path inside a concat-list line, read back by stripping the `file '` and
      `'` around it. This is a reading of the model's own; ffmpeg's concat demuxer
      also interprets quotes and backslashes inside the path. */
  function Unquote(line: string): string
  {
    if |line| >= 7 && line[..6] == "file '" && line[|line| - 1] == '\'' then line[6..|line| - 1] else line
  }

  /** Reads a concat list back into the files it names, line by line. */
  function ParseConcatList(text: string): seq<string>
    decreases |text|
  {
    if |text| == 0 then []
    else
      match Find(text, "\n")
      case None => [Unquote(text)]
      case Some(p) => [Unquote(text[..p])] + ParseConcatList(text[p + 1..])
  }

  /** The concat list names exactly the frame files, in order, one per line, as long
      as no path contains a newline. */
  lemma {:induction false} ConcatListRoundTrip(files: seq<string>)
    requires forall i :: 0 <= i < |files| ==> '\n' !in files[i]
    ensures ParseConcatList(ConcatList(files)) == files
  {
    if |files| > 0 {
      var f := files[0];
      var line := "file '" + f + "'";
      var text := ConcatList(files);
      assert text == line + "\n" + ConcatList(files[1..]);
      forall j: nat | j < |line| ensures !OccursAt(text, "\n", j) {
        if j >= 6 && j < 6 + |f| { assert text[j] == f[j - 6]; }
        NotOccursAtFirstChar(text, "\n", j);
      }
      assert OccursAt(text, "\n", |line|);
      FindUnique(text, "\n", |line|);
      assert text[..|line|] == line;
      assert text[|line| + 1..] == ConcatList(files[1..]);
      assert Unquote(line) == f;
      ConcatListRoundTrip(files[1..]);
    }
  }

  /** The `for frame in input_container.decode(...)` loop of `process_video` in the
      PyAV script: the budget test comes after a frame is decoded. `frames` are the
      decoded frames, `roundedRatio` is `round(original_fps / target_fps)`, and
      `segment(k, f)` is the k-th segmentation call on frame `f`, and `framePath(k)`
      the file the k-th result is saved to. Returns the indices printed as
      "Processing frame", the processed frames, the files they were saved to, and
      both counters. */
  method SamplingLoop<F, G>(frames: seq<F>, maxFrames: int, roundedRatio: int, framePath: nat -> string, segment: (nat, F) -> G)
    returns (selected: seq<nat>, saved: seq<G>, frameFiles: seq<string>, frameCount: nat, processedCount: nat)
    ensures frameCount == FrameBudget(maxFrames, |frames|)
    ensures selected == Sampled(frameCount, Stride(roundedRatio))
    ensures processedCount == |saved| == |frameFiles| == |selected| == CeilDiv(frameCount, Stride(roundedRatio))
    ensures forall k :: 0 <= k < |saved| ==>
      selected[k] == k * Stride(roundedRatio) && selected[k] < |frames|
      && saved[k] == segment(k, frames[selected[k]])
      && frameFiles[k] == framePath(k)
  {
    var stride := Stride(roundedRatio);
    frameCount, processedCount := 0, 0;
    selected, saved, frameFiles := [], [], [];
    for i := 0 to |frames|
      invariant frameCount == i
      invariant frameCount == 0 || frameCount <= maxFrames
      invariant selected == Sampled(frameCount, stride)
      invariant processedCount == |saved| == |frameFiles| == |selected|
      invariant forall k :: 0 <= k < |saved| ==>
        selected[k] < frameCount && saved[k] == segment(k, frames[selected[k]])
        && frameFiles[k] == framePath(k)
    {
      var frame := frames[i];
      if frameCount >= maxFrames {
        break;
      }
      if frameCount % stride == 0 {
        saved := saved + [segment(processedCount, frame)];
        frameFiles := frameFiles + [framePath(processedCount)];
        selected := selected + [frameCount];
        processedCount := processedCount + 1;
      }
      frameCount := frameCount + 1;
    }
    SampledCount(frameCount, stride);
    SampledAreMultiples(frameCount, stride);
  }

  /** `process_video` of the PyAV script: the sampling loop with the per-frame
      segmentation, then the concat list handed to ffmpeg, which runs only when some
      frame was processed. `replies(k)` is the reply to the k-th remote call. */
  method ProcessVideo<F>(frames: seq<F>, maxFrames: int, roundedRatio: int, tempDir: string,
                         replies: nat -> Result<string, PyError>, decode: string -> Option<F>)
    returns (selected: seq<nat>, saved: seq<F>, frameFiles: seq<string>, frameCount: nat, concatList: Option<string>)
    ensures frameCount == FrameBudget(maxFrames, |frames|)
    ensures selected == Sampled(frameCount, Stride(roundedRatio))
    ensures |saved| == |frameFiles| == |selected|
    ensures forall k :: 0 <= k < |saved| ==>
      selected[k] < |frames| && saved[k] == SegmentFrame(frames[selected[k]], replies(k), decode)
      && frameFiles[k] == FramePath(tempDir, k)
    ensures concatList.Some? <==> maxFrames > 0 && |frames| > 0
    ensures concatList.Some? ==> concatList.value == ConcatList(frameFiles)
  {
    var segment := (k: nat, f: F) => SegmentFrame(f, replies(k), decode);
    var processedCount;
    selected, saved, frameFiles, frameCount, processedCount :=
      SamplingLoop(frames, maxFrames, roundedRatio, (k: nat) => FramePath(tempDir, k), segment);
    SampledNonEmpty(frameCount, Stride(roundedRatio));
    if |frameFiles| > 0 {
      concatList := Some(ConcatList(frameFiles));
    } else {
      concatList := None;
    }
  }
}
