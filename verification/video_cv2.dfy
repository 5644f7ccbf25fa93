/** video_segmentation_cv2.py: finding the JSON in a detection reply, deciding which
    detections are drawn and in what colour, and the OpenCV sampling loop. */
module VideoCv2 {
  import opened Wrappers
  import opened Text
  import opened Sampling

  /** A value produced by `json.loads`. Objects are dictionaries keyed by string. */
  datatype Json =
    | JNull
    | JBool(b: bool)
    | JNumber(n: real)
    | JString(s: string)
    | JArray(items: seq<Json>)
    | JObject(members: map<string, Json>)

  /** The span `result_text[find('{') : rfind('}') + 1]` handed to the JSON parser,
      or `None` when the reply holds no '}' at or after its first '{'. */
  function JsonSpan(text: string): (r: Option<string>)
    ensures r.Some? <==> exists i, j :: 0 <= i <= j < |text| && text[i] == '{' && text[j] == '}'
    ensures r.Some? ==>
      exists i, j :: 0 <= i <= j < |text| && r.value == text[i..j + 1]
        && text[i] == '{' && '{' !in text[..i]
        && text[j] == '}' && '}' !in text[j + 1..]
  {
    var start := FindChar(text, '{');
    var end := RFindChar(text, '}') + 1;
    if start >= 0 && end > start then
      assert '{' !in text[..start];
      assert '}' !in text[end..];
      Some(text[start..end])
    else
      None
  }

  /** An OpenCV colour, blue first. */
  datatype Bgr = Bgr(blue: int, green: int, red: int)

  const RedBgr := Bgr(0, 0, 255)
  const BlueBgr := Bgr(255, 0, 0)
  const YellowBgr := Bgr(0, 255, 255)
  /** The colour used for every name missing from the colour map. */
  const GreenBgr := Bgr(0, 255, 0)

  /** `color_map.get(color_name, (0, 255, 0))`. */
  function ColorFor(colorName: string): (c: Bgr)
    ensures c == RedBgr <==> colorName == "red"
    ensures c == BlueBgr <==> colorName == "blue"
    ensures c == YellowBgr <==> colorName == "yellow"
    ensures c == GreenBgr <==> colorName !in {"red", "blue", "yellow"}
  {
    if colorName == "red" then RedBgr
    else if colorName == "blue" then BlueBgr
    else if colorName == "yellow" then YellowBgr
    else GreenBgr
  }

  /** `name` spells the lower-case ASCII `word` with any of its letters capitalised. */
  predicate SameIgnoringCase(name: string, word: string) {
    |name| == |word| && forall i :: 0 <= i < |name| ==> name[i] == word[i] || name[i] as int + 32 == word[i] as int
  }

  /** Lower-casing a name gives a lower-case word exactly when the name spells that
      word up to case. */
  lemma LowerIsWord(name: string, word: string)
    requires forall i :: 0 <= i < |word| ==> 'a' <= word[i] <= 'z'
    ensures Lower(name) == word <==> SameIgnoringCase(name, word)
  {
    if SameIgnoringCase(name, word) {
      forall i | 0 <= i < |name| ensures Lower(name)[i] == word[i] {
        if name[i] != word[i] {
          assert 'A' <= name[i] <= 'Z';
        }
      }
    }
    if Lower(name) == word {
      forall i | 0 <= i < |name| ensures name[i] == word[i] || name[i] as int + 32 == word[i] as int {
        assert Lower(name)[i] == word[i];
      }
    }
  }

  /** The colour a detection is drawn in, read off the raw name from the reply: red,
      blue or yellow when the name spells that word in any mix of case, green
      otherwise. */
  lemma ColorIgnoresCase(name: string)
    ensures ColorFor(Lower(name)) == RedBgr <==> SameIgnoringCase(name, "red")
    ensures ColorFor(Lower(name)) == BlueBgr <==> SameIgnoringCase(name, "blue")
    ensures ColorFor(Lower(name)) == YellowBgr <==> SameIgnoringCase(name, "yellow")
    ensures ColorFor(Lower(name)) == GreenBgr <==>
      !SameIgnoringCase(name, "red") && !SameIgnoringCase(name, "blue") && !SameIgnoringCase(name, "yellow")
  {
    LowerIsWord(name, "red");
    LowerIsWord(name, "blue");
    LowerIsWord(name, "yellow");
  }

  /** A detection that gets drawn: its four normalised coordinates, the lower-cased
      colour name written as its label, and the colour of box and label. */
  datatype Box = Box(coordinates: seq<real>, caption: string, color: Bgr)

  /** What the drawing loop does with one entry of `"objects"`. */
  datatype Step = Skip | Raise | Draw(box: Box)

  /** Python's `len(v)`; `None` where `len` raises `TypeError`. */
  function PyLen(v: Json): Option<nat>
  {
    match v
    case JString(s) => Some(|s|)
    case JArray(items) => Some(|items|)
    case JObject(members) => Some(|members|)
    case _ => None
  }

  /** A coordinate `int(x * width)` accepts: a number (or a boolean, which Python
      multiplies as 0 or 1). */
  predicate IsCoordinate(v: Json) {
    v.JNumber? || v.JBool?
  }

  function CoordinateValue(v: Json): real
    requires IsCoordinate(v)
  {
    match v
    case JNumber(n) => n
    case JBool(b) => if b then 1.0 else 0.0
  }

  /** One iteration of the `for obj in result_json["objects"]` loop. Membership tests
      (`"bbox" not in obj`) look up keys of an object, substrings of a string and
      elements of a list, and raise on anything else; indexing a string or a list with
      "bbox" raises too. */
  function EntryStep(entry: Json): (r: Step)
    ensures r.Draw? ==> entry.JObject?
    ensures entry.JString? ==>
      r == (if Contains(entry.s, "bbox") && Contains(entry.s, "color") then Raise else Skip)
    ensures entry.JArray? ==>
      r == (if JString("bbox") in entry.items && JString("color") in entry.items then Raise else Skip)
    ensures entry.JNull? || entry.JBool? || entry.JNumber? ==> r == Raise
  {
    match entry
    case JObject(m) =>
      if "bbox" !in m || "color" !in m then Skip
      else
        (match PyLen(m["bbox"])
         case None => Raise
         case Some(n) =>
           if n != 4 then Skip
           else if !m["bbox"].JArray? then Raise
           else
             var coords := m["bbox"].items;
             if !(forall k :: 0 <= k < 4 ==> IsCoordinate(coords[k])) then Raise
             else
               (match m["color"]
                case JString(name) =>
                  var caption := Lower(name);
                  Draw(Box(seq(4, k requires 0 <= k < 4 => CoordinateValue(coords[k])), caption, ColorFor(caption)))
                case _ => Raise))
    case JString(s) => if !Contains(s, "bbox") || !Contains(s, "color") then Skip else Raise
    case JArray(items) => if JString("bbox") !in items || JString("color") !in items then Skip else Raise
    case _ => Raise
  }

  /** The skip rule for dictionary entries: an entry is passed over exactly when it
      lacks "bbox" or "color" or its "bbox" has a length other than 4; it is drawn
      exactly when its bbox is a list of four numbers and its colour a string, in the
      colour of its lower-cased name; every other dictionary entry raises. */
  lemma ObjectEntryRule(m: map<string, Json>)
    ensures EntryStep(JObject(m)).Skip? <==>
      "bbox" !in m || "color" !in m || (PyLen(m["bbox"]).Some? && PyLen(m["bbox"]).value != 4)
    ensures EntryStep(JObject(m)).Draw? <==>
      && "bbox" in m && "color" in m && m["bbox"].JArray? && |m["bbox"].items| == 4
      && (forall k :: 0 <= k < 4 ==> IsCoordinate(m["bbox"].items[k]))
      && m["color"].JString?
    ensures EntryStep(JObject(m)).Draw? ==>
      EntryStep(JObject(m)).box.color == ColorFor(Lower(m["color"].s))
      && EntryStep(JObject(m)).box.caption == Lower(m["color"].s)
  {
  }

  /** Reference: the boxes of the drawable entries, one per drawable entry, in list order. */
  function DrawnBoxes(entries: seq<Json>): seq<Box>
  {
    if |entries| == 0 then []
    else
      (match EntryStep(entries[0]) case Draw(b) => [b] case _ => [])
      + DrawnBoxes(entries[1..])
  }

  /** The boxes of a concatenation are the boxes of each part, in order. */
  lemma {:induction false} DrawnBoxesAppend(a: seq<Json>, b: seq<Json>)
    ensures DrawnBoxes(a + b) == DrawnBoxes(a) + DrawnBoxes(b)
  {
    if |a| > 0 {
      assert (a + b)[1..] == a[1..] + b;
      DrawnBoxesAppend(a[1..], b);
    } else {
      assert a + b == b;
    }
  }

  /** A box is drawn exactly when some entry produces it. */
  lemma {:induction false} DrawnBoxesMembership(entries: seq<Json>, box: Box)
    ensures box in DrawnBoxes(entries) <==> exists i :: 0 <= i < |entries| && EntryStep(entries[i]) == Draw(box)
  {
    if |entries| > 0 {
      DrawnBoxesMembership(entries[1..], box);
      if box in DrawnBoxes(entries[1..]) {
        var i :| 0 <= i < |entries[1..]| && EntryStep(entries[1..][i]) == Draw(box);
        assert EntryStep(entries[i + 1]) == Draw(box);
      }
      if exists i :: 0 <= i < |entries| && EntryStep(entries[i]) == Draw(box) {
        var i :| 0 <= i < |entries| && EntryStep(entries[i]) == Draw(box);
        if i > 0 {
          assert EntryStep(entries[1..][i - 1]) == Draw(box);
        }
      }
    }
  }

  /** True when some entry from index `i` on raises. */
  predicate RaisesFrom(entries: seq<Json>, i: nat) {
    exists k :: i <= k < |entries| && EntryStep(entries[k]).Raise?
  }

  /** The drawing loop as written, from entry `i` on, with the boxes drawn so far:
      `continue` on a skipped entry, and an exception abandons the whole drawing. */
  function DrawLoop(entries: seq<Json>, i: nat, drawn: seq<Box>): Option<seq<Box>>
    requires i <= |entries|
    decreases |entries| - i
  {
    if i == |entries| then Some(drawn)
    else
      match EntryStep(entries[i])
      case Skip => DrawLoop(entries, i + 1, drawn)
      case Raise => None
      case Draw(b) => DrawLoop(entries, i + 1, drawn + [b])
  }

  /** The loop draws every drawable entry once, in order, unless some entry raises. */
  lemma {:induction false} DrawLoopIsReference(entries: seq<Json>, i: nat, drawn: seq<Box>)
    requires i <= |entries|
    ensures DrawLoop(entries, i, drawn) ==
      if RaisesFrom(entries, i) then None else Some(drawn + DrawnBoxes(entries[i..]))
    decreases |entries| - i
  {
    if i == |entries| {
      assert entries[i..] == [];
      assert drawn + [] == drawn;
    } else {
      var rest := entries[i + 1..];
      assert entries[i..] == [entries[i]] + rest;
      assert [entries[i]][1..] == [];
      DrawnBoxesAppend([entries[i]], rest);
      assert DrawnBoxes(entries[i..]) == DrawnBoxes([entries[i]]) + DrawnBoxes(rest);
      assert RaisesFrom(entries, i) <==> EntryStep(entries[i]).Raise? || RaisesFrom(entries, i + 1);
      DrawLoopIsReference(entries, i + 1, drawn + DrawnBoxes([entries[i]]));
      match EntryStep(entries[i])
      case Skip =>
        assert DrawnBoxes([entries[i]]) == [];
        assert drawn + [] == drawn;
        assert DrawLoop(entries, i, drawn) == DrawLoop(entries, i + 1, drawn);
        assert RaisesFrom(entries, i) == RaisesFrom(entries, i + 1);
        assert DrawnBoxes(entries[i..]) == DrawnBoxes(rest);
        assert DrawLoop(entries, i + 1, drawn) == if RaisesFrom(entries, i + 1) then None else Some(drawn + DrawnBoxes(rest));
      case Raise =>
      case Draw(b) =>
        assert DrawnBoxes([entries[i]]) == [b];
        assert DrawLoop(entries, i, drawn) == DrawLoop(entries, i + 1, drawn + [b]);
        assert (drawn + [b]) + DrawnBoxes(rest) == drawn + ([b] + DrawnBoxes(rest));
    }
  }

  /** `draw_colored_bounding_boxes`: the boxes drawn on the copy of the frame, or
      `None` when it raises (the caller then returns the frame untouched). Iterating
      a string yields one-character strings, which are all skipped; iterating a
      dictionary yields its keys, and a key raises exactly when it contains both
      "bbox" and "color". */
  function DrawColoredBoundingBoxes(doc: map<string, Json>): (r: Option<seq<Box>>)
    ensures "objects" !in doc ==> r == Some([])
    ensures "objects" in doc && doc["objects"].JArray? ==>
      r == (if RaisesFrom(doc["objects"].items, 0) then None else Some(DrawnBoxes(doc["objects"].items)))
    ensures "objects" in doc && doc["objects"].JString? ==> r == Some([])
    ensures "objects" in doc && doc["objects"].JObject? ==>
      (r.None? <==> exists key :: key in doc["objects"].members && Contains(key, "bbox") && Contains(key, "color"))
    ensures "objects" in doc && (doc["objects"].JNull? || doc["objects"].JBool? || doc["objects"].JNumber?) ==> r.None?
    ensures r.Some? && |r.value| > 0 ==> "objects" in doc && doc["objects"].JArray?
  {
    if "objects" !in doc then Some([])
    else
      match doc["objects"]
      case JArray(items) =>
        DrawLoopIsReference(items, 0, []);
        assert items[0..] == items;
        assert [] + DrawnBoxes(items) == DrawnBoxes(items);
        DrawLoop(items, 0, [])
      case JString(_) => Some([])
      case JObject(m) =>
        if exists key :: key in m && Contains(key, "bbox") && Contains(key, "color") then None else Some([])
      case _ => None
  }

  /** An output frame: a copy of `source` with `boxes` drawn on it, in order. With no
      boxes it is pixel-equal to the source. */
  datatype Annotated<F> = Annotated(source: F, boxes: seq<Box>)

  /** `segment_colored_objects_with_gemini` of the OpenCV script. `reply` is the
      reply text or the exception of the remote call; `parse` is `json.loads`, with
      `None` for a parse error. Every failure returns the frame undrawn. */
  function SegmentFrame<F>(frame: F, reply: Result<string, PyError>, parse: string -> Option<map<string, Json>>): (r: Annotated<F>)
    ensures r.source == frame
    ensures reply.Failure? ==> r.boxes == []
    ensures reply.Success? && JsonSpan(reply.value).None? ==> r.boxes == []
    ensures |r.boxes| > 0 ==>
      && reply.Success? && JsonSpan(reply.value).Some?
      && parse(JsonSpan(reply.value).value).Some?
      && Some(r.boxes) == DrawColoredBoundingBoxes(parse(JsonSpan(reply.value).value).value)
    ensures reply.Success? && JsonSpan(reply.value).Some? ==>
      var parsed := parse(JsonSpan(reply.value).value);
      && (parsed.None? ==> r.boxes == [])
      && (parsed.Some? && DrawColoredBoundingBoxes(parsed.value).None? ==> r.boxes == [])
      && (parsed.Some? && DrawColoredBoundingBoxes(parsed.value).Some? ==>
            Some(r.boxes) == DrawColoredBoundingBoxes(parsed.value))
  {
    match reply
    case Failure(_) => Annotated(frame, [])
    case Success(text) =>
      match JsonSpan(text)
      case None => Annotated(frame, [])
      case Some(span) =>
        match parse(span)
        case None => Annotated(frame, [])
        case Some(doc) =>
          match DrawColoredBoundingBoxes(doc)
          case None => Annotated(frame, [])
          case Some(boxes) => Annotated(frame, boxes)
  }

  /** The `while frame_count < max_frames` loop of `process_video` in the OpenCV
      script. `frames` are the frames `cap.read()` delivers before it fails;
      `roundedRatio` is `round(original_fps / target_fps)`; `segment(k, f)` is the
      result of the k-th segmentation call, on frame `f`. Returns the indices
      printed as "Processing frame", the frames handed to the video writer, and
      both counters. */
  method SamplingLoop<F, G>(frames: seq<F>, maxFrames: int, roundedRatio: int, segment: (nat, F) -> G)
    returns (selected: seq<nat>, written: seq<G>, frameCount: nat, processedCount: nat)
    ensures frameCount == FrameBudget(maxFrames, |frames|)
    ensures selected == Sampled(frameCount, Stride(roundedRatio))
    ensures processedCount == |written| == |selected| == CeilDiv(frameCount, Stride(roundedRatio))
    ensures forall k :: 0 <= k < |written| ==>
      selected[k] == k * Stride(roundedRatio) && selected[k] < |frames|
      && written[k] == segment(k, frames[selected[k]])
  {
    var stride := Stride(roundedRatio);
    frameCount, processedCount := 0, 0;
    selected, written := [], [];
    while frameCount < maxFrames
      invariant frameCount <= |frames|
      invariant frameCount == 0 || frameCount <= maxFrames
      invariant selected == Sampled(frameCount, stride)
      invariant processedCount == |written| == |selected|
      invariant forall k :: 0 <= k < |written| ==>
        selected[k] < frameCount && written[k] == segment(k, frames[selected[k]])
      decreases |frames| - frameCount
    {
      if frameCount >= |frames| {
        break;
      }
      var frame := frames[frameCount];
      if frameCount % stride == 0 {
        written := written + [segment(processedCount, frame)];
        selected := selected + [frameCount];
        processedCount := processedCount + 1;
      }
      frameCount := frameCount + 1;
    }
    SampledCount(frameCount, stride);
    SampledAreMultiples(frameCount, stride);
  }

  /** `process_video` of the OpenCV script: the sampling loop with the per-frame
      segmentation, where `replies(k)` is the reply to the k-th remote call. */
  method ProcessVideo<F>(frames: seq<F>, maxFrames: int, roundedRatio: int,
                         replies: nat -> Result<string, PyError>, parse: string -> Option<map<string, Json>>)
    returns (selected: seq<nat>, written: seq<Annotated<F>>, frameCount: nat)
    ensures frameCount == FrameBudget(maxFrames, |frames|)
    ensures selected == Sampled(frameCount, Stride(roundedRatio))
    ensures |written| == |selected|
    ensures forall k :: 0 <= k < |written| ==>
      selected[k] < |frames| && written[k] == SegmentFrame(frames[selected[k]], replies(k), parse)
  {
    var segment := (k: nat, f: F) => SegmentFrame(f, replies(k), parse);
    var processedCount;
    selected, written, frameCount, processedCount := SamplingLoop(frames, maxFrames, roundedRatio, segment);
  }
}
