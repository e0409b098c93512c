/** The server's fixed configuration values (the environment lookups are not modelled). */
module Config {

  /** The MIME types an upload may have. */
  const AllowedMimeTypes: seq<string> := [
    "image/jpeg",
    "image/png",
    "image/gif",
    "video/mp4",
    "application/pdf",
    "application/msword",
    "application/vnd.openxmlformats-officedocument.wordprocessingml.document"
  ]

  /** 10 MB, the largest upload accepted. */
  const MaxFileSize: nat := 10 * 1024 * 1024

  /** The directory uploads are moved to, served under "/uploads/". */
  const UploadDir := "uploads"
}
