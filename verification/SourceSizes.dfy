/** The buffer sizes and fixed texts of the C sources that the model depends on, as numbers and literals. */
module SourceSizes {
  import HeaderFraming
  import RequestHeaders
  import RequestReader
  import RequestLine
  import Authorization
  import PathCheck
  import FileServe
  import Checksum
  import Base64

  /** A buffer of `n` characters holds a text of `n - 1` in front of its NUL. */
  lemma Sizes()
    ensures HeaderFraming.ROOM == 8096 - 1 && FileServe.PIECE == 512 - 1
    ensures RequestHeaders.METHOD_SIZE == 16 && RequestHeaders.CIPHER_SIZE == 128
    ensures RequestHeaders.FIELD_SIZE == 128 && RequestHeaders.AGENT_SIZE == 512
    ensures RequestLine.URL_SIZE == 256 && RequestLine.VERSION_SIZE == 16
    ensures Authorization.PLAIN_SIZE == 256 && PathCheck.PATH_SIZE == 512
    ensures RequestHeaders.MAX_INT == Checksum.INT_MAX == 2147483647
    ensures Base64.DECODE_ERROR == 4294967295 && Base64.WORD == 4294967296
  {
  }

  lemma Delimiter()
    ensures HeaderFraming.DASHES == "--------------------------"
  {
  }

  /** A cleared record is all zeros. */
  lemma Cleared()
    ensures var i := RequestReader.CLEARED;
            && i.headerLen == 0 && i.contentLength == 0 && !i.hasAuth
            && |i.authMethod| == 16 && |i.authCipher| == 128
            && |i.contentType| == |i.disposition| == |i.bodyType| == 128
            && forall c :: c in i.authMethod + i.authCipher + i.contentType + i.disposition + i.bodyType ==> c == '\0'
  {
  }
}
