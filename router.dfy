/**
 * The request dispatch of the `/analyze` endpoint.  The framework objects are
 * reduced to what the handler inspects: whether the multipart payload carries
 * a `file` part, and the `selectedModel` form field, which may be absent.
 */
module Router {
  import opened Wrappers

  /** What the handler does with a request: run one of the two pipelines, or answer with a client error. */
  datatype Route = PhotoPipeline | VideoPipeline | Rejected(message: string, status: int)

  const NoFileMessage: string := "No file uploaded"
  const InvalidSelectionMessage: string := "Invalid model selection"
  const BadRequest: int := 400

  /**
   * Chooses the route.  The missing-file check comes first, so without a file
   * the selector is never looked at; with a file, only the exact strings
   * "photo" and "video" select a pipeline.
   */
  function Analyze(fileUploaded: bool, selectedModel: Option<string>): (r: Route)
    ensures !fileUploaded ==> r == Rejected(NoFileMessage, BadRequest)
    ensures r == PhotoPipeline <==> fileUploaded && selectedModel == Some("photo")
    ensures r == VideoPipeline <==> fileUploaded && selectedModel == Some("video")
    ensures fileUploaded && selectedModel != Some("photo") && selectedModel != Some("video") ==>
              r == Rejected(InvalidSelectionMessage, BadRequest)
    ensures r.Rejected? ==> r.status == BadRequest && |r.message| > 0
  {
    if !fileUploaded then Rejected(NoFileMessage, BadRequest)
    else if selectedModel == Some("photo") then PhotoPipeline
    else if selectedModel == Some("video") then VideoPipeline
    else Rejected(InvalidSelectionMessage, BadRequest)
  }

  /**
   * Without a file the answer does not depend on the selector at all; a
   * corollary of the first postcondition of `Analyze`.
   */
  lemma FileCheckComesFirst(s1: Option<string>, s2: Option<string>)
    ensures Analyze(false, s1) == Analyze(false, s2)
  {
  }
}
