/**
 The packed transactions of a MultiSend call, and the text form they are decoded to. The layout is
 an assumption about the library that parses it: 1 byte operation, 20 bytes address, 32 bytes
 value, 32 bytes data length, data.
 */
module MultiSend {
  import opened Wrappers
  import opened Encoding

  datatype Transaction = Transaction(operation: Byte, to: Bytes, value: nat, data: Bytes)

  const HEADER: nat := 85

  /** Words of 32 bytes are below 2 to the 256th. */
  const WORD_LIMIT: nat := 0x1_0000000000000000_0000000000000000_0000000000000000_0000000000000000

  lemma WordLimitIsPower()
    ensures Power256(32) == WORD_LIMIT
  {
    assert Power256(4) == 0x1_00000000;
    assert Power256(8) == 0x1_00000000_00000000;
    assert Power256(12) == 0x1_00000000_00000000_00000000;
    assert Power256(16) == 0x1_00000000_00000000_00000000_00000000;
    assert Power256(20) == 0x1_00000000_00000000_00000000_00000000_00000000;
    assert Power256(24) == 0x1_00000000_00000000_00000000_00000000_00000000_00000000;
    assert Power256(28) == 0x1_00000000_00000000_00000000_00000000_00000000_00000000_00000000;
  }

  /** Operation 0 is a call and 1 a delegate call; the words fit their fields. */
  predicate Valid(tx: Transaction) {
    && tx.operation <= 1 && |tx.to| == 20
    && tx.value < WORD_LIMIT && |tx.data| < WORD_LIMIT
  }

  predicate AllValid(txs: seq<Transaction>) {
    forall tx | tx in txs :: Valid(tx)
  }

  function Encode(tx: Transaction): Bytes {
    [tx.operation] + tx.to + ToBigEndian(tx.value, 32) + ToBigEndian(|tx.data|, 32) + tx.data
  }

  function EncodeAll(txs: seq<Transaction>): Bytes {
    if txs == [] then [] else Encode(txs[0]) + EncodeAll(txs[1..])
  }

  /** The first transaction of a payload; `None` when it is truncated or its operation unknown. */
  function ParseOne(payload: Bytes): (tx: Option<Transaction>)
    ensures tx.Some? ==> HEADER + |tx.value.data| <= |payload|
  {
    if |payload| < HEADER || payload[0] > 1 then None
    else
      var length := FromBigEndian(payload[53..85]);
      if HEADER + length > |payload| then None
      else
        Some(Transaction(payload[0], payload[1..21], FromBigEndian(payload[21..53]), payload[85..85 + length]))
  }

  function ParseAll(payload: Bytes): Option<seq<Transaction>> {
    if payload == [] then Some([])
    else
      match ParseOne(payload)
      case None => None
      case Some(tx) =>
        match ParseAll(payload[HEADER + |tx.data|..])
        case None => None
        case Some(rest) => Some([tx] + rest)
  }

  /******* Parsing and encoding are inverse *******/

  lemma EncodeFields(tx: Transaction)
    requires Valid(tx)
    ensures var bs := Encode(tx);
            && |bs| == HEADER + |tx.data|
            && bs[0] == tx.operation && bs[1..21] == tx.to
            && bs[21..53] == ToBigEndian(tx.value, 32) && bs[53..85] == ToBigEndian(|tx.data|, 32)
            && bs[85..] == tx.data
  {
  }

  lemma NumberRoundTrip(n: nat)
    requires n < WORD_LIMIT
    ensures FromBigEndian(ToBigEndian(n, 32)) == n
  {
    WordLimitIsPower();
    BigEndianOfNumber(n, 32);
  }

  lemma ParseOneOfEncoded(tx: Transaction, rest: Bytes)
    requires Valid(tx)
    ensures ParseOne(Encode(tx) + rest) == Some(tx)
    ensures (Encode(tx) + rest)[HEADER + |tx.data|..] == rest
  {
    var bs := Encode(tx);
    EncodeFields(tx);
    NumberRoundTrip(tx.value);
    NumberRoundTrip(|tx.data|);
    SlicesOfPrefix(bs, rest, 1, 21);
    SlicesOfPrefix(bs, rest, 21, 53);
    SlicesOfPrefix(bs, rest, 53, 85);
    SlicesOfPrefix(bs, rest, 85, |bs|);
    assert bs[85..|bs|] == bs[85..];
  }

  lemma SlicesOfPrefix(a: Bytes, b: Bytes, from: nat, to: nat)
    requires from <= to <= |a|
    ensures (a + b)[from..to] == a[from..to]
    ensures (a + b)[|a|..] == b
  {
  }

  /** The fields of a payload, side by side. */
  lemma FiveFields(payload: Bytes, length: nat)
    requires HEADER + length <= |payload|
    ensures payload[..1] + payload[1..21] + payload[21..53] + payload[53..85] + payload[85..85 + length]
            == payload[..85 + length]
  {
  }

  lemma WordRoundTrip(payload: Bytes, from: nat)
    requires from + 32 <= |payload|
    ensures FromBigEndian(payload[from..from + 32]) < WORD_LIMIT
    ensures ToBigEndian(FromBigEndian(payload[from..from + 32]), 32) == payload[from..from + 32]
  {
    var word := payload[from..from + 32];
    assert |word| == 32;
    WordLimitIsPower();
    BigEndianOfBytes(word);
  }

  lemma ParsedIsValid(payload: Bytes)
    requires ParseOne(payload).Some?
    ensures Valid(ParseOne(payload).value)
  {
    WordRoundTrip(payload, 21);
    WordRoundTrip(payload, 53);
  }

  lemma ParsedEncodes(payload: Bytes)
    requires ParseOne(payload).Some?
    ensures var tx := ParseOne(payload).value;
            Encode(tx)
            == payload[..1] + payload[1..21] + payload[21..53] + payload[53..85] + payload[85..85 + |tx.data|]
  {
    var tx := ParseOne(payload).value;
    WordRoundTrip(payload, 21);
    WordRoundTrip(payload, 53);
    assert [tx.operation] == payload[..1];
  }

  lemma EncodedIsPrefix(payload: Bytes)
    requires ParseOne(payload).Some?
    ensures var tx := ParseOne(payload).value;
            Valid(tx) && payload == Encode(tx) + payload[HEADER + |tx.data|..]
  {
    var length := |ParseOne(payload).value.data|;
    ParsedIsValid(payload);
    ParsedEncodes(payload);
    FiveFields(payload, length);
    assert payload == payload[..85 + length] + payload[85 + length..];
  }

  /** A payload parses to a list exactly when the list is well formed and encodes to the payload:
      no byte is skipped, invented or read twice. */
  lemma {:induction false} ParsesIffEncodes(payload: Bytes, txs: seq<Transaction>)
    ensures ParseAll(payload) == Some(txs) <==> AllValid(txs) && EncodeAll(txs) == payload
    decreases |payload| + |txs|
  {
    if payload == [] {
      if txs != [] && Valid(txs[0]) {
        EncodeFields(txs[0]);
      }
    } else if txs == [] {
      if ParseOne(payload).Some? {
        var rest := ParseAll(payload[HEADER + |ParseOne(payload).value.data|..]);
        assert ParseAll(payload).Some? ==> ParseAll(payload).value[0] == ParseOne(payload).value;
      }
    } else {
      if AllValid(txs) && EncodeAll(txs) == payload {
        ParseOneOfEncoded(txs[0], EncodeAll(txs[1..]));
        ParsesIffEncodes(EncodeAll(txs[1..]), txs[1..]);
        assert txs == [txs[0]] + txs[1..];
      }
      if ParseAll(payload) == Some(txs) {
        EncodedIsPrefix(payload);
        ParsesIffEncodes(payload[HEADER + |txs[0].data|..], txs[1..]);
        assert txs == [txs[0]] + txs[1..];
      }
    }
  }

  /** The bytes of a payload are the data of its transactions and 85 more for each. */
  function TotalLength(txs: seq<Transaction>): nat {
    if txs == [] then 0 else HEADER + |txs[0].data| + TotalLength(txs[1..])
  }

  lemma {:induction false} EncodedLength(txs: seq<Transaction>)
    requires AllValid(txs)
    ensures |EncodeAll(txs)| == TotalLength(txs)
  {
    if txs == [] {
    } else {
      EncodeFields(txs[0]);
      EncodedLength(txs[1..]);
    }
  }

  /******* The decoded text *******/

  /** A decoded transaction: address and data as hexadecimal text, the value in decimal. */
  datatype Rendered = Rendered(operation: Byte, to: string, value: string, data: Option<string>)

  function Render(tx: Transaction): Rendered {
    Rendered(tx.operation, Hex(tx.to), Decimal(tx.value), if tx.data == [] then None else Some(Hex(tx.data)))
  }

  function RenderAll(txs: seq<Transaction>): (rendered: seq<Rendered>)
    ensures |rendered| == |txs| && forall i | 0 <= i < |txs| :: rendered[i] == Render(txs[i])
  {
    if txs == [] then [] else [Render(txs[0])] + RenderAll(txs[1..])
  }

  function ReadBack(r: Rendered): Option<Transaction> {
    match (ParseHex(r.to), ParseInt(r.value), if r.data.None? then Some([]) else ParseHex(r.data.value))
    case (Some(to), Some(value), Some(data)) =>
      if value < 0 then None else Some(Transaction(r.operation, to, value, data))
    case _ => None
  }

  function ReadBackAll(rendered: seq<Rendered>): Option<seq<Transaction>> {
    if rendered == [] then Some([])
    else
      match (ReadBack(rendered[0]), ReadBackAll(rendered[1..]))
      case (Some(tx), Some(rest)) => Some([tx] + rest)
      case _ => None
  }

  lemma RenderRoundTrip(tx: Transaction)
    ensures ReadBack(Render(tx)) == Some(tx)
  {
    HexRoundTrip(tx.to);
    HexRoundTrip(tx.data);
    IntRoundTrip(tx.value);
    assert IntText(tx.value) == Decimal(tx.value);
  }

  lemma {:induction false} RenderAllRoundTrip(txs: seq<Transaction>)
    ensures ReadBackAll(RenderAll(txs)) == Some(txs)
  {
    if txs == [] {
    } else {
      RenderRoundTrip(txs[0]);
      RenderAllRoundTrip(txs[1..]);
      assert RenderAll(txs)[1..] == RenderAll(txs[1..]);
      assert txs == [txs[0]] + txs[1..];
    }
  }

  /** Every payload that decodes re-encodes from its decoded text to exactly the original bytes. */
  lemma DecodedTextReencodes(payload: Bytes)
    requires ParseAll(payload).Some?
    ensures var readBack := ReadBackAll(RenderAll(ParseAll(payload).value));
            readBack.Some? && EncodeAll(readBack.value) == payload
  {
    var txs := ParseAll(payload).value;
    ParsesIffEncodes(payload, txs);
    RenderAllRoundTrip(txs);
  }
}
