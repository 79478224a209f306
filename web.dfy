/** The browser values the page passes around: selected files and binary blobs. */
module Web {

  /** One byte of a file or blob. */
  type Byte = bv8

  /** A `File` chosen in the file input: its name and its contents. */
  datatype SourceFile = SourceFile(name: string, bytes: seq<Byte>)

  /** A `Blob`: its bytes and its MIME type (the `type` option it was built with). */
  datatype Blob = Blob(bytes: seq<Byte>, mimeType: string)
}
