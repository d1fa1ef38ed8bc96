/**
 * The `/analyze` handler around the answer extractor: choosing the images
 * and the mode from the request body, refusing a request without images,
 * assembling the content sent to the model, and shaping the reply.
 * The model itself is a parameter: a function from the content sent to
 * the text of the first block of its reply.
 */
module Analyze {
  import opened Wrappers
  import opened DataUrl
  import opened AnswerExtractor

  /** The fields of the JSON body the handler reads; each may be absent. */
  datatype Request = Request(image: Option<string>, images: Option<seq<string>>, transcription: Option<string>)

  /** JavaScript truthiness of an optional string: present and not empty. */
  predicate Truthy(s: Option<string>)
  {
    s.Some? && s.value != []
  }

  /** `images || (image ? [image] : [])`: an array is truthy even when empty. */
  function ImageList(req: Request): seq<string>
  {
    match req.images
    case Some(list) => list
    case None => if Truthy(req.image) then [req.image.value] else []
  }

  /** The list is empty exactly when `images` is an empty array, or absent with no usable `image`. */
  lemma ImageListEmptyIff(req: Request)
    ensures ImageList(req) == [] <==> req.images == Some([]) || (req.images.None? && !Truthy(req.image))
  {
  }

  /** A supplied `images` array wins: `image` is then ignored, whatever it is. */
  lemma ImagesTakePrecedence(req: Request, other: Option<string>)
    requires req.images.Some?
    ensures ImageList(req.(image := other)) == ImageList(req) == req.images.value
  {
  }

  /** The two prompts, and the mode values of the reply. */
  datatype Mode = Simple | Complex

  /** `(images && images.length > 1) || transcription`, read from the raw fields. */
  function ModeOf(req: Request): Mode
  {
    if (req.images.Some? && |req.images.value| > 1) || Truthy(req.transcription) then Complex else Simple
  }

  /** The mode is complex exactly when more than one image is sent or a transcription is given. */
  lemma ModeIff(req: Request)
    ensures ModeOf(req) == Complex <==> |ImageList(req)| > 1 || Truthy(req.transcription)
  {
    if req.images.None? {
      assert |ImageList(req)| <= 1;
    }
  }

  /** The two prompt constants, whose wording is not modelled. */
  datatype Prompts = Prompts(simple: string, complex: string)

  function BasePrompt(prompts: Prompts, mode: Mode): string
  {
    if mode == Complex then prompts.complex else prompts.simple
  }

  const TeacherLead: string := "\n\nLe professeur dit : \""
  const TeacherClose: string := "\""

  /** The prompt sent: the mode's prompt, followed by the teacher's words in quotes when there are any. */
  function Prompt(prompts: Prompts, mode: Mode, transcription: Option<string>): string
  {
    BasePrompt(prompts, mode) + if Truthy(transcription) then TeacherLead + transcription.value + TeacherClose else ""
  }

  /** The teacher's words inside a prompt, read back from between the lead and the closing quote. */
  function TeacherWords(prompt: string, base: string): Option<string>
  {
    var from := |base| + |TeacherLead|;
    if && from + |TeacherClose| <= |prompt|
       && prompt[|base|..from] == TeacherLead
       && prompt[|prompt| - |TeacherClose|..] == TeacherClose
    then
      Some(prompt[from..|prompt| - |TeacherClose|])
    else None
  }

  /** The transcription, when given, can be read back from the prompt; otherwise the prompt is the mode's own. */
  lemma PromptCarriesTranscription(prompts: Prompts, mode: Mode, transcription: Option<string>)
    ensures var p := Prompt(prompts, mode, transcription);
      && p[..|BasePrompt(prompts, mode)|] == BasePrompt(prompts, mode)
      && (Truthy(transcription) ==> TeacherWords(p, BasePrompt(prompts, mode)) == transcription)
      && (!Truthy(transcription) ==> p == BasePrompt(prompts, mode))
  {
    var base := BasePrompt(prompts, mode);
    var p := Prompt(prompts, mode, transcription);
    if Truthy(transcription) {
      var t := transcription.value;
      assert p == base + TeacherLead + t + TeacherClose;
      assert p[|base|..|base| + |TeacherLead|] == TeacherLead;
      assert p[|base| + |TeacherLead|..|p| - |TeacherClose|] == t;
    } else {
      assert p == base + "";
    }
  }

  /** `{ type: 'base64', media_type: 'image/jpeg', data }`. */
  datatype ImageSource = ImageSource(sourceType: string, mediaType: string, data: string)

  /** A block of the user message: `{ type: 'image', source }` or `{ type: 'text', text }`. */
  datatype Block = ImageBlock(source: ImageSource) | TextBlock(text: string)

  /** The image block for one entry of the image list; every image is declared a base64 JPEG. */
  function ImageBlockFor(imgData: string): Block
  {
    ImageBlock(ImageSource("base64", "image/jpeg", StripDataUrlPrefix(imgData)))
  }

  /**
   * `content` is what the handler sends for these images and this prompt:
   * one image block per image, in order, then exactly one text block.
   */
  predicate IsContentFor(content: seq<Block>, imageList: seq<string>, prompt: string)
  {
    && |content| == |imageList| + 1
    && (forall k :: 0 <= k < |imageList| ==> content[k] == ImageBlockFor(imageList[k]))
    && content[|imageList|] == TextBlock(prompt)
  }

  /** The images and the prompt determine the content. */
  lemma ContentUnique(c1: seq<Block>, c2: seq<Block>, imageList: seq<string>, prompt: string)
    requires IsContentFor(c1, imageList, prompt) && IsContentFor(c2, imageList, prompt)
    ensures c1 == c2
  {
  }

  /** The only text block is the last one, and every image block carries the data of its image with at most a header removed. */
  lemma ContentShape(content: seq<Block>, imageList: seq<string>, prompt: string)
    requires IsContentFor(content, imageList, prompt)
    ensures forall k :: 0 <= k < |content| ==> (content[k].TextBlock? <==> k == |imageList|)
    ensures forall k :: 0 <= k < |imageList| ==>
      var d := content[k].source.data;
      |d| <= |imageList[k]| && d == imageList[k][|imageList[k]| - |d|..]
      && (d == imageList[k] || IsHeader(imageList[k][..|imageList[k]| - |d|]))
  {
    forall k | 0 <= k < |imageList|
      ensures var d := content[k].source.data;
        d == imageList[k] || IsHeader(imageList[k][..|imageList[k]| - |d|])
    {
      StripRemovesOnlyHeader(imageList[k]);
    }
  }

  /**
   * Lines 88-108: push one image block per image, then choose the prompt,
   * append the teacher's words when there are any, and push the text block.
   */
  method BuildContent(imageList: seq<string>, mode: Mode, transcription: Option<string>, prompts: Prompts)
    returns (content: seq<Block>)
    ensures IsContentFor(content, imageList, Prompt(prompts, mode, transcription))
  {
    content := [];
    for i := 0 to |imageList|
      invariant |content| == i
      invariant forall k :: 0 <= k < i ==> content[k] == ImageBlockFor(imageList[k])
    {
      var base64Data := StripDataUrlPrefix(imageList[i]);
      content := content + [ImageBlock(ImageSource("base64", "image/jpeg", base64Data))];
    }
    var prompt := if mode == Complex then prompts.complex else prompts.simple;
    if Truthy(transcription) {
      prompt := prompt + TeacherLead + transcription.value + TeacherClose;
    }
    content := content + [TextBlock(prompt)];
  }

  const NoImageError: string := "No image provided"

  /** The JSON the handler answers with; `text` is absent when the reply has no line. */
  datatype Response =
    | BadRequest(error: string)                                      // status 400
    | Success(text: Option<string>, fullAnalysis: string, mode: Mode) // status 200

  /**
   * The handler. `model` stands for the call to the model: it maps the
   * content sent to the text of the first block of the reply. `sent` is
   * the content the model was called with, or `None` when it was not called.
   */
  method HandleAnalyze(req: Request, prompts: Prompts, model: seq<Block> -> string)
    returns (resp: Response, sent: Option<seq<Block>>)
    ensures ImageList(req) == [] <==> sent.None?
    ensures sent.None? ==> resp == BadRequest(NoImageError)
    ensures sent.Some? ==>
      && IsContentFor(sent.value, ImageList(req), Prompt(prompts, ModeOf(req), req.transcription))
      && resp == Success(Answer(KeptLines(model(sent.value))), model(sent.value), ModeOf(req))
  {
    var isComplex := ModeOf(req);
    var imageList := ImageList(req);
    if |imageList| == 0 {
      return BadRequest(NoImageError), None;
    }
    var content := BuildContent(imageList, isComplex, req.transcription, prompts);
    var fullResponse := model(content);
    var finalAnswer := ExtractAnswer(fullResponse);
    resp := Success(finalAnswer, fullResponse, isComplex);
    sent := Some(content);
  }
}
