/** Archive entries as `java.util.zip` hands them to the Ruby code. The ZIP
    container itself (framing, compression, checksums) is not part of this
    model: an archive is the sequence of its entries in stream order. */
module Archive {

  newtype byte = b: int | 0 <= b < 256

  /** One entry: its name and the bytes stored under it. */
  datatype Entry = Entry(name: string, data: seq<byte>)

  /** `ZipEntry#isDirectory`: the name ends in '/'. */
  predicate IsDirectoryEntry(e: Entry) {
    |e.name| > 0 && e.name[|e.name| - 1] == '/'
  }
}
