/**
 What this client relies on about the response grammar (`imap_proto::parser::parse_response`,
 a foreign function). The parser is any total function with these laws.
 */
module ParserLaws {
  import opened Text
  import opened Responses

  /** `Complete` says how many octets of the input the response took; the rest is left over.
      `Incomplete` asks for more input; `Malformed` is any other failure. */
  datatype Parsed = Complete(length: nat, response: Response) | Incomplete | Malformed

  predicate Cut(x: bytes, k: nat) {
    k <= |x|
  }

  /** A complete response is a non-empty prefix of the input that ends a line. */
  ghost predicate EndsLines(p: bytes -> Parsed) {
    forall x {:trigger Cut(x, |x|)} ::
      p(x).Complete? ==> Cut(x, p(x).length) && EndsWithCRLF(x[..p(x).length])
  }

  /** More input never changes a verdict. */
  ghost predicate Stable(p: bytes -> Parsed) {
    forall x, k {:trigger Cut(x, k)} :: Cut(x, k) && !p(x[..k]).Incomplete? ==> p(x) == p(x[..k])
  }

  /** A response is recognised as soon as its last octet is there. */
  ghost predicate NoLookahead(p: bytes -> Parsed) {
    forall x, k {:trigger Cut(x, k)} ::
      Cut(x, k) && p(x).Complete? && p(x).length <= k ==> p(x[..k]) == p(x)
  }

  ghost predicate Lawful(p: bytes -> Parsed) {
    EndsLines(p) && Stable(p) && NoLookahead(p)
  }
}
