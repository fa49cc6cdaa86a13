/**
 * The part of a DNS message that `resolve` looks at, and what one exchange with a
 * server can end in.  The wire format itself is not part of this model.
 */
module DnsMessage {
  import opened Wrappers
  import Text

  // Presentation-format names are never empty (the root is "."), so the Go code's "" for
  // "no alias seen yet" is None here.
  datatype Name = Name(text: string)

  type Ttl = n: nat | n < 0x1_0000_0000 witness 0
  type Address = nat

  const MAX_TTL: Ttl := 0xFFFF_FFFF

  // A carries None when its payload is not a 4- or 16-byte address.
  datatype Data = A(address: Option<Address>) | CName(target: Name) | OtherData

  datatype Record = Record(name: Name, inet: bool, ttl: Ttl, data: Data)

  datatype Question = Question(name: Name, isA: bool, inet: bool)

  datatype Rcode = Success | NameError | OtherRcode(code: nat)

  datatype Reply = Reply(
    response: bool,
    truncated: bool,
    queryOpcode: bool,
    sameId: bool,
    questions: seq<Question>,
    rcode: Rcode,
    answer: seq<Record>)

  datatype Exchange = Failed | Received(reply: Reply)

  /** What one hop sees: the UDP exchange, the TCP retry, and when the last of them arrived. */
  datatype Hop = Hop(udp: Exchange, tcp: Exchange, arrived: int)

  /** Any server at all: its behaviour may change from hop to hop. */
  type Server = (nat, Name) -> Hop

  function Lower(n: Name): Name {
    Name(Text.Lower(n.text))
  }

  predicate EqualFold(a: Name, b: Name) {
    Lower(a) == Lower(b)
  }

  function Min(a: Ttl, b: Ttl): Ttl {
    if a <= b then a else b
  }
}
