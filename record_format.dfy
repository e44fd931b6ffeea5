/** The binary record the converter writes and the searcher reads: the raw
    digest, then the occurrence count as a 4-byte little-endian int32, with
    no separator and no index. */
module RecordFormat {
  const DigestLength: nat := 20
  const RecordLength: nat := 24
}
