/** gen_image.py: the file name built for a generated image, and the `None` fallback. */
module GenImage {
  import opened Wrappers
  import opened Text
  import opened Naming

  /** Directory the generated images are saved in. */
  const ImagesDir := "generated_images"

  /** Longest prefix of the prompt kept in a file name. */
  const SafePromptLength := 30

  /** A character that may appear in a sanitised prompt. */
  predicate IsSafe(c: char) {
    IsAlnum(c) || c == '_'
  }

  /** One character of the sanitised prompt: kept if alphanumeric, otherwise '_'. */
  function SafeChar(c: char): char {
    if IsAlnum(c) then c else '_'
  }

  /** The generator expression `"".join(c if c.isalnum() else "_" for c in prompt)`,
      consumed one character at a time. */
  function ReplaceUnsafe(prompt: string): (r: string)
    ensures |r| == |prompt|
    ensures forall i :: 0 <= i < |r| ==> r[i] == SafeChar(prompt[i])
  {
    if |prompt| == 0 then ""
    else [SafeChar(prompt[0])] + ReplaceUnsafe(prompt[1..])
  }

  /** `safe_prompt`: the replaced prompt cut to its first 30 characters. */
  function SafePrompt(prompt: string): (r: string)
    ensures |r| == if |prompt| < SafePromptLength then |prompt| else SafePromptLength
    ensures forall i :: 0 <= i < |r| ==> IsSafe(r[i])
    ensures forall i :: 0 <= i < |r| ==> (IsAlnum(prompt[i]) ==> r[i] == prompt[i])
    ensures forall i :: 0 <= i < |r| ==> (!IsAlnum(prompt[i]) ==> r[i] == '_')
  {
    var full := ReplaceUnsafe(prompt);
    if |full| <= SafePromptLength then full else full[..SafePromptLength]
  }

  /** Sanitising a sanitised prompt changes nothing. */
  lemma SafePromptIdempotent(prompt: string)
    ensures SafePrompt(SafePrompt(prompt)) == SafePrompt(prompt)
  {
    var once := SafePrompt(prompt);
    var twice := SafePrompt(once);
    assert |twice| == |once|;
    forall i | 0 <= i < |once|
      ensures twice[i] == once[i]
    {
      assert IsSafe(once[i]);
    }
  }

  /** The name `generate_image` saves under: `<safe_prompt>_<timestamp>.png`. */
  function ImageFileName(prompt: string, timestamp: string): string
  {
    ResultFileName(SafePrompt(prompt), timestamp, "png")
  }

  /** The saved name starts with the sanitised prompt, from which it can be read back,
      and the prompt part holds only letters, digits and '_'. */
  lemma ImageFileNameParts(prompt: string, timestamp: string)
    ensures ParseResultFileName(ImageFileName(prompt, timestamp), |timestamp|, "png")
            == Some((SafePrompt(prompt), timestamp))
    ensures forall i :: 0 <= i < |SafePrompt(prompt)| ==> IsSafe(ImageFileName(prompt, timestamp)[i])
  {
    ResultFileNameRoundTrip(SafePrompt(prompt), timestamp, "png");
  }

  /** `generate_image`. `decoded` stands for everything inside the `try` that can
      raise: the remote call, base64 decoding, opening and saving the image. Any
      exception yields `None`; otherwise the image lands under `generated_images`. */
  function GenerateImage<I>(prompt: string, timestamp: string, decoded: Result<I, PyError>): (r: Option<SavedFile<I>>)
    ensures r.None? <==> decoded.Failure?
    ensures r.Some? ==> r.value.content == decoded.value
    ensures r.Some? ==> r.value.path == ImagesDir + "/" + ImageFileName(prompt, timestamp)
  {
    match decoded
    case Failure(_) => None
    case Success(image) =>
      var name := ImageFileName(prompt, timestamp);
      assert name[0] != '/' by {
        var safe := SafePrompt(prompt);
        if |safe| > 0 { assert IsSafe(safe[0]); }
      }
      Some(SavedFile(PathJoin(ImagesDir, name), image))
  }
}
