# Vision-Models scripts: a Dafny model of their deterministic core

The repository is a set of Python scripts that send images or video frames to a
hosted vision model and act on its replies. This project models what those scripts
do with a reply once they have it, and how they name and list the files they write.

- **video_segmentation_cv2.py**
  - finding the JSON object inside a detection reply;
  - deciding which detections are drawn and in which BGR colour;
  - the OpenCV loop that samples frames and sends them for segmentation.
- **video_segmentation.py**
  - scanning a reply for a `data:image/...;base64,` URL;
  - the PyAV sampling loop;
  - naming the temporary frame files `frame_NNNNNN.jpg`;
  - the `file '<path>'` list handed to ffmpeg's concat demuxer.
- **image2csv.py**
  - cutting the CSV block out of a fenced reply;
  - the `Error processing image:` fallback;
  - the `md_results/<stem>_<timestamp>.csv` file name.
- **gen_image.py**
  - sanitising the prompt into a 30-character file-name stem;
  - the `generated_images/<stem>_<timestamp>.png` name;
  - the `None` returned on any exception.

Remote calls, the clock, image decoding and `json.loads` are not modelled as code.
Each becomes an input:
- a `Result<string, PyError>` for a reply, or for the exception raised while getting it;
- a timestamp string;
- a function parameter for decoding or parsing.

Modules:
- `Wrappers`: `Option`, `Result`, and Python exceptions as `PyError`.
- `Text`: the `str` operations the scripts use (`find`, `rfind`, `split`, `join`, `lower`), over `seq<char>`. It also defines Python's string `<`, which no script calls; it is used only to state that the frame file names sort in processing order.
- `Digits`: `str(n)` and `{n:06d}`.
- `Naming`: `os.path.join`, `PurePath.stem`, and the `<stem>_<timestamp>.<ext>` names.
- `GenImage`, `ImageCsv`, `VideoCv2` and `VideoAv`: one per script.
- `Sampling`: the stride and frame budget shared by both video loops.
- `LoopAgreement`: shows that the two loops select the same frames.

Things worth knowing about the model:
- **Header row.** The comment at image2csv.py:64 says "remove the first line of the csv content". The code at line 66 drops the first line of the fenced segment, and that line is only the empty rest of the "```csv" line. So the header row is kept: `ImageCsv.HeaderRowIsKept` proves that "```csv\nheader\nrow\n```" gives "header\nrow\n".
- **Four backticks.** The code takes `split("```csv")[1].split("```")[0]` literally. This differs from "up to the first closing fence" only when a run of four backticks runs into the next "```csv". `ImageCsv.FencedSegmentIsFirstBlock` proves the two agree when no four backticks follow the opening fence. `ImageCsv.FourBacktickRunKeepsBacktick` gives an input where the split keeps a stray backtick.
- **Membership tests on JSON values.** `"bbox" not in obj` in the drawing loop is Python's dynamic `in`. It means key membership for a dictionary, substring search for a string, element search for a list, and a `TypeError` for anything else. An exception anywhere in the loop abandons the drawing, and the caller falls back to the undrawn frame. `VideoCv2.EntryStep` models each of these cases.
- **Parsed JSON is a dictionary.** The span given to `json.loads` starts with `{` and ends with `}`, so a successful parse is a dictionary. The parser is therefore a parameter returning `Option<map<string, Json>>`.

## Model

| member | source | states |
|---|---|---|
| Text.FindChar | video_segmentation_cv2.py:87 | `str.find` of one character: the first index holding it, with no earlier one; -1 exactly when it is absent |
| Text.RFindChar | video_segmentation_cv2.py:88 | `str.rfind` of one character: the last index holding it, with no later one; -1 exactly when it is absent |
| Text.Find | image2csv.py:65 | `str.find`: an occurrence exactly when the pattern is in the text, and the one with no earlier occurrence |
| Text.Split | image2csv.py:65-66 | `str.split`: at least one piece, exactly one when the separator is absent, no piece holds the separator, joining the pieces with the separator (`Text.Join`) gives the input back, and every cut is at the leftmost occurrence of the separator in what remains |
| Text.CutIsLeftmost | image2csv.py:65 | the text up to the first separator, followed by the separator, has its leftmost occurrence of the separator at its end |
| Text.SplitLeadingPieces | image2csv.py:65 | piece 0 of a split is the text before the first separator; piece 1 is the text between the first separator and the next |
| Text.JoinAfterFirstPiece | image2csv.py:66-67 | `sep.join(s.split(sep)[1:])` is the text after the first separator, or empty when there is none |
| Text.Lower | video_segmentation_cv2.py:141 | lower-casing keeps the length and maps each capital to its small letter and every other character to itself |
| Digits.Decimal | video_segmentation.py:133 | `str(n)` is one or more decimal digits, which read back as `n` (see `Digits.DecimalRoundTrip`) |
| Digits.ZeroPad | video_segmentation.py:133 | the `06` format pads to at least six characters and never truncates |
| Digits.DecimalRoundTrip | video_segmentation.py:133 | reading back the decimal digits of `n` gives `n` |
| Digits.ZeroPadRoundTrip | video_segmentation.py:133 | `{n:06d}` is all digits and reads back as `n`, for every `n` including those of more than six digits |
| Digits.PaddedIsFixed | video_segmentation.py:133 | below 10^w, `{n:0wd}` is exactly w digits, the base-10 expansion of `n` |
| Digits.FixedDigitsOrdered | video_segmentation.py:133 | fixed-width expansions compare as strings the way the numbers compare |
| Naming.PathJoin | video_segmentation.py:133 | `os.path.join`: an absolute name replaces the directory; otherwise the result is the directory, then one "/" exactly when the directory is non-empty and does not end in "/", then the name |
| Naming.Basename | image2csv.py:22 | the last path component holds no "/", is a suffix of the path, and is preceded by "/" when it is not the whole path |
| Naming.BasenameOfJoin | image2csv.py:22 | the last component of a directory joined with a separator-free name is that name |
| Naming.Stem | image2csv.py:22 | `Path.stem` has no separator and is the last path component (`Naming.Basename`) with its suffix cut off: the cut is at the last '.', with no '.' after it, and only when that '.' is neither first nor last; otherwise the whole component is the stem |
| Naming.StemOfNamedFile | image2csv.py:22 | the stem of `<dir>/<stem>.<ext>` is `<stem>` |
| Naming.StemOfBasename | image2csv.py:22 | any path whose last component is `<stem>.<ext>`, with no '.' in the extension, has stem `<stem>` |
| Naming.ParseResultFileName | image2csv.py:26 | a successful parse gives a stem and a timestamp of the given length that rebuild the name |
| Naming.ResultFileNameRoundTrip | image2csv.py:26 | the stem and timestamp come back out of the `<stem>_<timestamp>.<ext>` name (`Naming.ResultFileName`) they build |
| Naming.ResultFileNameInjective | image2csv.py:24-26 | two saves with timestamps of equal length share a file name only if their stems and timestamps agree |
| GenImage.ReplaceUnsafe | gen_image.py:48 | each character is kept when alphanumeric and replaced by '_' otherwise, and the length is kept |
| GenImage.SafePrompt | gen_image.py:48 | `safe_prompt` is the first min(30, len) characters of the prompt, each kept when alphanumeric and '_' otherwise, so only letters, digits and '_' remain |
| GenImage.SafePromptIdempotent | gen_image.py:48 | sanitising an already sanitised prompt changes nothing |
| GenImage.ImageFileNameParts | gen_image.py:46-49 | the image file name (`GenImage.ImageFileName`) reads back as the sanitised prompt and the timestamp, and its stem holds only safe characters |
| GenImage.GenerateImage | gen_image.py:46-59 | `None` exactly when something in the `try` raised; otherwise the decoded image is saved at `generated_images/<safe_prompt>_<timestamp>.png` |
| ImageCsv.FencedSegment | image2csv.py:65 | the double split succeeds exactly when the reply contains "```csv", and otherwise raises `IndexError`; the segment holds no "```" and is a prefix of the text after the first opening fence |
| ImageCsv.DropFirstLine | image2csv.py:66-67 | dropping the first line leaves the text after the first newline, or nothing when there is no newline |
| ImageCsv.DropFirstLineFacts | image2csv.py:66-67 | the dropped part holds no newline, and no closing fence appears in what remains |
| ImageCsv.ExtractCsv | image2csv.py:62-67 | the CSV is extracted exactly when the reply contains "```csv"; it is the segment after its first line, holds no "```", and the failure is `IndexError` |
| ImageCsv.FencedSegmentIsFirstBlock | image2csv.py:63-65 | without four backticks after the opening fence, the segment is the text up to the first closing fence |
| ImageCsv.CutAtOpeningFenceFirst | image2csv.py:65 | cutting at the next "```csv" before the first "```" changes nothing unless four backticks meet |
| ImageCsv.FourBacktickRunKeepsBacktick | image2csv.py:63-65 | "```csv\nx````csv" gives "x`", while the first closing fence would give "x" |
| ImageCsv.HeaderRowIsKept | image2csv.py:64-67 | "```csv\nheader\nrow\n```" gives "header\nrow\n": the header row is kept |
| ImageCsv.CsvPath | image2csv.py:22-28 | the CSV is saved at `md_results/<stem of the image path>_<timestamp>.csv` |
| ImageCsv.ErrorReport | image2csv.py:74 | every error report starts with "Error processing image: " |
| ImageCsv.ImageToCsv | image2csv.py:62-74 | a file is saved exactly when the reply arrived and contains "```csv"; it holds the extracted CSV, and the return value names the path and repeats the content; a failed call returns the error report of that very exception; a reply without "```csv" returns the `IndexError` report |
| ImageCsv.ReportsAreDistinguishable | image2csv.py:71-74 | the returned string starts with "Error processing image: " exactly when nothing was saved |
| Sampling.Stride | video_segmentation_cv2.py:186 | `max(1, round(...))` is at least 1 and at least the ratio, and equals one of them |
| Sampling.FrameBudget | video_segmentation_cv2.py:197-200 | the loop consumes at most `max_frames` frames (none when `max_frames` is negative) and at most the frames the video has, stopping at whichever comes first |
| Sampling.SampledMembership | video_segmentation_cv2.py:197-203 | a frame index is segmented exactly when it is within the budget and a multiple of the stride |
| Sampling.SampledCount | video_segmentation_cv2.py:197-216 | the number of segmented frames is the budget over the stride, rounded up |
| Sampling.SampledAreMultiples | video_segmentation_cv2.py:197-216 | the k-th segmented frame is source frame k times the stride |
| Sampling.FiftyOfHundred | video_segmentation_cv2.py:158 | a budget of 100 frames at stride 2 segments 50 frames of any video of at least 100 frames |
| Sampling.SampledNonEmpty | video_segmentation.py:145 | some frame is segmented exactly when the budget is not empty |
| VideoCv2.JsonSpan | video_segmentation_cv2.py:87-98 | a span is found exactly when some '}' sits at or after some '{'; it runs from the first '{' to the last '}' |
| VideoCv2.ColorFor | video_segmentation_cv2.py:115-142 | "red", "blue" and "yellow" map to (0,0,255), (255,0,0) and (0,255,255); every other name maps to green (0,255,0) |
| VideoCv2.ColorIgnoresCase | video_segmentation_cv2.py:141-142 | a raw colour name is drawn red, blue or yellow exactly when it spells that word in any mix of upper and lower case, and green otherwise |
| VideoCv2.LowerIsWord | video_segmentation_cv2.py:141 | lower-casing a name gives a lower-case word exactly when the name spells that word in any mix of case |
| VideoCv2.EntryStep | video_segmentation_cv2.py:127-142 | one loop iteration: only a dictionary entry is drawn; a string entry raises exactly when it contains both "bbox" and "color" as substrings (indexing a string with "bbox" raises) and is skipped otherwise; a list entry likewise with elements; a null, boolean or number raises at the `in` test |
| VideoCv2.ObjectEntryRule | video_segmentation_cv2.py:128-142 | a dictionary entry is skipped exactly when it lacks "bbox" or "color" or its bbox has a `len` other than 4; it is drawn exactly when its bbox is a list of four numbers and its colour a string, in the colour and caption of the lower-cased name; every other dictionary entry raises, which abandons the drawing of the whole frame |
| VideoCv2.DrawnBoxesAppend | video_segmentation_cv2.py:127-154 | the boxes for two runs of entries are those of each run, in order |
| VideoCv2.DrawnBoxesMembership | video_segmentation_cv2.py:127-154 | a box is drawn exactly when some entry yields it |
| VideoCv2.DrawLoopIsReference | video_segmentation_cv2.py:127-155 | the loop as written (`VideoCv2.DrawLoop`, with `continue` and exceptions) draws the boxes of the drawable entries in order, or abandons the drawing when some entry raises |
| VideoCv2.DrawColoredBoundingBoxes | video_segmentation_cv2.py:121-156 | no "objects" key draws nothing; an "objects" list draws its drawable entries unless one raises; a string draws nothing; a dictionary raises exactly when one of its keys contains both "bbox" and "color" (iterating it yields its keys); a null, boolean or number raises; boxes are drawn only from a list |
| VideoCv2.SegmentFrame | video_segmentation_cv2.py:82-106 | the result is always the input frame with some boxes; when the reply arrived, a JSON span was found, parsed, and the drawing did not raise, the boxes are exactly those `draw_colored_bounding_boxes` draws; a failed call, no span, a parse error or a raise leaves the frame undrawn |
| VideoCv2.SamplingLoop | video_segmentation_cv2.py:192-216 | the loop consumes the frame budget, segments frames 0, s, 2s, ... below it in order, and the k-th output is the k-th segmentation call on its frame |
| VideoCv2.ProcessVideo | video_segmentation_cv2.py:186-216 | the frames written are the segmentation results of the sampled frames, in order |
| VideoAv.RunEnd | video_segmentation.py:62 | a greedy run of characters other than the stop character ends at the first stop character or at the end |
| VideoAv.MatchAt | video_segmentation.py:62-64 | a match found at a position satisfies the pattern declaratively: prefix, non-empty media type without ';', ";base64,", a maximal non-empty payload without '"' |
| VideoAv.MediaTypeEnd | video_segmentation.py:62 | the media type of a match ends at the first ';' after the prefix |
| VideoAv.PayloadEnd | video_segmentation.py:62 | the payload of a match ends at the first '"' after it starts, or at the end of the text |
| VideoAv.MatchAtComplete | video_segmentation.py:62-64 | every declarative match at a position is the one found there |
| VideoAv.Search | video_segmentation.py:64 | `re.search` returns the leftmost matching position with its group 1, and nothing exactly when no position matches |
| VideoAv.SearchNoneIffNoMatch | video_segmentation.py:64-73 | the scan finds nothing exactly when no position of the reply matches the pattern |
| VideoAv.SearchIsLeftmost | video_segmentation.py:64 | `re.search` reports a position and group exactly when that is a match with no match further left |
| VideoAv.SegmentFrame | video_segmentation.py:62-77 | when the reply has a leftmost match, the result is its payload decoded, or the frame when decoding fails; a failed call or a reply without a match returns the frame |
| VideoAv.ParseFrameFileName | video_segmentation.py:133 | a parsed name has the "frame_" prefix and the ".jpg" suffix |
| VideoAv.FrameFileNameRoundTrip | video_segmentation.py:133 | the frame number reads back from its file name `frame_{k:06d}.jpg` (`VideoAv.FrameFileName`) for every number |
| VideoAv.FrameFileNamesDistinct | video_segmentation.py:133 | different frames are saved to different file names |
| VideoAv.FrameFileNamesOrdered | video_segmentation.py:133 | below a million frames, file names sort in processing order under Python's string `<` (`Text.LexLess`) |
| VideoAv.FramePathNoNewline | video_segmentation.py:133 | a frame path holds a newline only if the temporary directory does |
| VideoAv.ConcatListRoundTrip | video_segmentation.py:145-150 | the concat list, one `file '<path>'` line (`VideoAv.ConcatLine`) per file, names exactly the frame files, in order, when no path holds a newline |
| VideoAv.SamplingLoop | video_segmentation.py:110-142 | the loop consumes the frame budget, segments frames 0, s, 2s, ... below it in order, and saves the k-th result to the k-th file name |
| VideoAv.ProcessVideo | video_segmentation.py:106-150 | the saved frames are the segmentation results of the sampled frames, the k-th saved to `<temp_dir>/frame_{k:06d}.jpg` (`VideoAv.FramePath`); a concat list (`VideoAv.ConcatList`) exists exactly when `max_frames > 0` and the video has a frame, and it lists the saved files in order |
| LoopAgreement.RunBoth | video_segmentation.py:116-142 | on a video that decodes without error, the PyAV loop, which tests the budget after decoding a frame, and the OpenCV loop, which tests it before reading one, select the same frames and produce the same results |

## Left out

- Remote model calls, the API client and its configuration, and `time.sleep`: the reply, or the exception raised while getting it, is an input.
- Base64 and JPEG/PNG encoding and decoding, `Image.open`/`save`, colour conversion, and `cv2.rectangle`/`putText`: decoding is a parameter that may fail, and a drawn frame is represented by its source and the list of boxes drawn on it.
- `int(x1 * width)` and the other pixel conversions: a box keeps its normalised coordinates.
- VideoCv2.EntryStep: a bbox item that is not a number or boolean is treated as raising. Python multiplies a string by the integer width and `int` may accept the result, so the source draws `["0", "0", "0", "0"]` (and the string bbox `"0000"`) at pixel 0 while the model abandons the drawing. String repetition is not modelled.
- `json.loads` is a parameter. Its numbers are reals, and NaN and infinities are not modelled.
- Frame rates are floating point. The stride takes the already rounded ratio `round(original_fps / target_fps)` as an integer input, so Python's round-half-even is not modelled.
- `str.isalnum` and `str.lower` are modelled on ASCII. Other Unicode letters and digits, which Python also keeps in `safe_prompt`, are not modelled.
- `Path.stem` follows the CPython 3.8 to 3.13 rule (a suffix needs a '.' that is neither first nor last in the name). Path normalisation (`//`, trailing separators, `.` components) is not modelled.
- `os.makedirs`, `mkdir`, the temporary directory's lifetime, file writes, `VideoCapture`/`VideoWriter`, and the ffmpeg subprocess: the model returns what would be written and where.
- The printed progress and error messages, except the string `image2csv.py` returns.
- image2md.py is not part of this model.
- VideoAv.SamplingLoop: the frames are those the decoder delivers. A decoding error, which PyAV raises out of `process_video` before ffmpeg runs, is not modelled. The PyAV loop also decodes frame `max_frames` before it breaks, and the OpenCV loop never reads that frame. If decoding that one frame raises, the PyAV script aborts while the OpenCV one completes. Saving a processed frame (`processed_pil_frame.save`, video_segmentation.py:134) is outside any `try` as well. It can fail even when decoding returned an image, for example when a lazily opened image turns out to be truncated, or when an RGBA reply cannot be written as JPEG. `process_video` then aborts before ffmpeg runs. The model always saves. LoopAgreement.RunBoth compares the loops only on videos that decode without error.
- VideoAv.ConcatListRoundTrip: reads the list back with the model's own `Unquote`. ffmpeg's concat demuxer also interprets quotes and backslashes, so a temporary directory containing `'` or `\` would be misread by ffmpeg. That is not modelled.
