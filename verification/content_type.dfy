/** The content-type table of `get_content_type`. */
module ContentTypes {

  /** The six extensions the server knows, with their media types. */
  const Table: map<string, string> := map[
    "png" := "image/png",
    "jpg" := "image/jpeg",
    "jpeg" := "image/jpeg",
    "gif" := "image/gif",
    "mp4" := "video/mp4",
    "pdf" := "application/pdf"
  ]

  /** What an extension outside the table is served as. */
  const Fallback := "image/png"

  /** The media type sent for a file with the given extension. */
  function ContentType(fileType: string): (mime: string)
    ensures mime == "image/jpeg" <==> fileType == "jpg" || fileType == "jpeg"
    ensures mime == "image/gif" <==> fileType == "gif"
    ensures mime == "video/mp4" <==> fileType == "mp4"
    ensures mime == "application/pdf" <==> fileType == "pdf"
    ensures mime == "image/png" <==> fileType !in {"jpg", "jpeg", "gif", "mp4", "pdf"}
  {
    if fileType in Table then Table[fileType] else Fallback
  }

  /** Every answer is one of five media types; "html" and "" are not in the table. */
  lemma ContentTypeRange(fileType: string)
    ensures ContentType(fileType) in {"image/png", "image/jpeg", "image/gif", "video/mp4", "application/pdf"}
    ensures ContentType("html") == "image/png" && ContentType("") == "image/png"
  {
  }
}
