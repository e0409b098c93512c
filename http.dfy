/** The parts of an HTTP request the middleware and controllers read. */
module Http {

  /**
   * A numeric query parameter after `q ? Number(q) : default`: Missing for
   * an absent or empty parameter (the default applies), otherwise the
   * number `Number(q)` gives; NaN and the infinities are NonFinite.
   */
  datatype QueryNumber = Missing | Finite(value: real) | NonFinite

  /** An uploaded file as express-fileupload describes it. */
  datatype UploadedFile = UploadedFile(name: string, size: nat, mimetype: string)

  /** One entry of `req.files`: an array when several files share the field name. */
  datatype FileField = Single(file: UploadedFile) | Many(files: seq<UploadedFile>)
}
