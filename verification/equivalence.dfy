/** The two `process_video` scripts test the frame budget at different points: the
    OpenCV loop before reading a frame, the PyAV loop after decoding one. Both pick
    the same frames and hand them to the segmentation call in the same order. */
module LoopAgreement {
  import VideoCv2
  import VideoAv
  import opened Sampling

  /** Runs both sampling loops on the same decoded frames with the same
      segmentation call and returns what each produced. */
  method RunBoth<F, G>(frames: seq<F>, maxFrames: int, roundedRatio: int, tempDir: string, segment: (nat, F) -> G)
    returns (cv2Selected: seq<nat>, avSelected: seq<nat>, cv2Frames: seq<G>, avFrames: seq<G>, cv2Count: nat, avCount: nat)
    ensures cv2Selected == avSelected
    ensures cv2Frames == avFrames
    ensures cv2Count == avCount == FrameBudget(maxFrames, |frames|)
    ensures |cv2Frames| == CeilDiv(cv2Count, Stride(roundedRatio))
  {
    var p1, p2, files;
    cv2Selected, cv2Frames, cv2Count, p1 := VideoCv2.SamplingLoop(frames, maxFrames, roundedRatio, segment);
    avSelected, avFrames, files, avCount, p2 := VideoAv.SamplingLoop(frames, maxFrames, roundedRatio, (k: nat) => VideoAv.FramePath(tempDir, k), segment);
  }
}
