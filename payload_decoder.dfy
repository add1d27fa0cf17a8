/** Unmarshalling of an event payload received on a ZMQ event socket: the publisher puts four
    alignment bytes in front of the CDR-encoded value, the consumer drops them and hands the rest
    to a CDR reader. The reader (AttDataReady, AttributeConfig_3 or AttributeValue_4, with the
    Java object built from it) is a parameter of the model. */
module PayloadDecoder {
  import opened JavaRuntime
  import opened Results

  /** Number of bytes the C++ publisher adds for alignment. */
  const AlignmentBytes: nat := 4

  /** deMarshallAttDataReady, deMarshallAttributeConfig and deMarshallAttribute: strip the
      alignment bytes and read the rest with the given byte order. A payload shorter than the
      alignment fails while the copy is allocated; every failure, the reader's included, comes
      back as Api_ConvertionFailed. */
  function DeMarshall<T>(recData: seq<i8>, littleEndian: bool, read: (seq<i8>, bool) -> Result<T>): (r: Result<T>)
    ensures |recData| < AlignmentBytes ==> r == Failure(ConvertionFailed(NegativeArraySize))
    ensures |recData| >= AlignmentBytes ==> (r.Success? <==> read(recData[AlignmentBytes..], littleEndian).Success?)
    ensures r.Success? ==> r == read(recData[AlignmentBytes..], littleEndian)
    ensures r.Failure? ==> r.error.ConvertionFailed?
  {
    if |recData| < AlignmentBytes then Failure(ConvertionFailed(NegativeArraySize))
    else
      match read(recData[AlignmentBytes..], littleEndian)
      case Failure(e) => Failure(ConvertionFailed(e))
      case Success(v) => Success(v)
  }

  /** The reader sees exactly the bytes after the alignment prefix, in the byte order asked for,
      whatever the prefix holds. */
  lemma DeMarshallReadsBody<T>(pad: seq<i8>, body: seq<i8>, littleEndian: bool, read: (seq<i8>, bool) -> Result<T>)
    requires |pad| == AlignmentBytes
    ensures DeMarshall(pad + body, littleEndian, read)
         == match read(body, littleEndian)
            case Failure(e) => Failure(ConvertionFailed(e))
            case Success(v) => Success(v)
  {
    assert (pad + body)[AlignmentBytes..] == body;
  }

  /** Two payloads that differ only in their alignment bytes decode alike. */
  lemma AlignmentIrrelevant<T>(pad1: seq<i8>, pad2: seq<i8>, body: seq<i8>, littleEndian: bool,
                               read: (seq<i8>, bool) -> Result<T>)
    requires |pad1| == AlignmentBytes && |pad2| == AlignmentBytes
    ensures DeMarshall(pad1 + body, littleEndian, read) == DeMarshall(pad2 + body, littleEndian, read)
  {
    DeMarshallReadsBody(pad1, body, littleEndian, read);
    DeMarshallReadsBody(pad2, body, littleEndian, read);
  }
}
