/**
 The recursive decoder of calldata. `get_data_decoded`, `decode_transaction_with_types`,
 `decode_parameters_data` and `decode_multisend_data` call each other on bytes found inside bytes;
 every function returns, next to its result, how many non-empty payloads it tried to decode.
 */
module TransactionDecoder {
  import opened Wrappers
  import opened Encoding
  import opened Abis
  import opened MultiSend
  import FunctionLookup

  /******* Decoded arguments *******/

  /** A value as the ABI library returns it. Addresses are already text. */
  datatype AbiValue =
    | ABytes(bytes: Bytes)
    | AInt(i: int)
    | ABool(b: bool)
    | AText(s: string)
    | ATuple(items: seq<AbiValue>)
    | AList(items: seq<AbiValue>)

  datatype Json = Str(s: string) | TupleOf(items: seq<Json>) | ListOf(items: seq<Json>)

  /** `_parse_decoded_arguments`: bytes to hexadecimal and integers to decimal text. Python counts a
      boolean as an integer. */
  function ParseArgument(v: AbiValue): Json
    decreases v
  {
    match v
    case ABytes(bytes) => Str(Hex(bytes))
    case AInt(i) => Str(IntText(i))
    case ABool(b) => Str(if b then "True" else "False")
    case AText(s) => Str(s)
    case ATuple(items) => TupleOf(ParseArguments(items))
    case AList(items) => ListOf(ParseArguments(items))
  }

  function ParseArguments(vs: seq<AbiValue>): (parsed: seq<Json>)
    ensures |parsed| == |vs| && forall i | 0 <= i < |vs| :: parsed[i] == ParseArgument(vs[i])
    decreases vs
  {
    if vs == [] then [] else [ParseArgument(vs[0])] + ParseArguments(vs[1..])
  }

  /** The text of a value: hexadecimal, decimal, a capitalised boolean, the text itself, item by item. */
  ghost predicate IsTextOf(v: AbiValue, j: Json)
    decreases v
  {
    match v
    case ABytes(bytes) => j.Str? && ParseHex(j.s) == Some(bytes)
    case AInt(i) => j.Str? && IsCanonicalInt(j.s) && ParseInt(j.s) == Some(i)
    case ABool(b) => j == Str(if b then "True" else "False")
    case AText(s) => j == Str(s)
    case ATuple(items) =>
      j.TupleOf? && |j.items| == |items| && forall i | 0 <= i < |items| :: IsTextOf(items[i], j.items[i])
    case AList(items) =>
      j.ListOf? && |j.items| == |items| && forall i | 0 <= i < |items| :: IsTextOf(items[i], j.items[i])
  }

  /** Each value has exactly one text, the one it is parsed to. */
  lemma {:induction false} ParseArgumentIff(v: AbiValue, j: Json)
    ensures IsTextOf(v, j) <==> j == ParseArgument(v)
    decreases v
  {
    match v
    case ABytes(bytes) => HexIff(if j.Str? then j.s else Hex(bytes), bytes);
    case AInt(i) => IntTextIff(if j.Str? then j.s else IntText(i), i);
    case ATuple(items) =>
      if j.TupleOf? && |j.items| == |items| {
        ItemsIff(v, j.items);
      }
    case AList(items) =>
      if j.ListOf? && |j.items| == |items| {
        ItemsIff(v, j.items);
      }
    case _ =>
  }

  lemma {:induction false} ItemsIff(v: AbiValue, js: seq<Json>)
    requires (v.ATuple? || v.AList?) && |js| == |v.items|
    ensures (forall i | 0 <= i < |js| :: IsTextOf(v.items[i], js[i])) <==> js == ParseArguments(v.items)
    decreases v, 0
  {
    var parsed := ParseArguments(v.items);
    forall i | 0 <= i < |js| ensures IsTextOf(v.items[i], js[i]) <==> js[i] == parsed[i] {
      ParseArgumentIff(v.items[i], js[i]);
    }
    if js == parsed {
      assert forall i | 0 <= i < |js| :: js[i] == parsed[i];
    }
  }

  /** Two values that one ABI type could both have. */
  predicate SameShape(v: AbiValue, w: AbiValue)
    decreases v
  {
    match (v, w)
    case (ABytes(_), ABytes(_)) => true
    case (AInt(_), AInt(_)) => true
    case (ABool(_), ABool(_)) => true
    case (AText(_), AText(_)) => true
    case (ATuple(vs), ATuple(ws)) => |vs| == |ws| ==> forall i | 0 <= i < |vs| :: SameShape(vs[i], ws[i])
    case (AList(vs), AList(ws)) => |vs| == |ws| ==> forall i | 0 <= i < |vs| :: SameShape(vs[i], ws[i])
    case _ => false
  }

  /** Nothing is lost: within a type, different values have different text. */
  lemma {:induction false} ParsingIsLossless(v: AbiValue, w: AbiValue)
    requires SameShape(v, w) && ParseArgument(v) == ParseArgument(w)
    ensures v == w
    decreases v
  {
    match (v, w)
    case (ABytes(x), ABytes(y)) =>
      HexRoundTrip(x);
      HexRoundTrip(y);
    case (AInt(x), AInt(y)) =>
      IntRoundTrip(x);
      IntRoundTrip(y);
    case (ATuple(vs), ATuple(ws)) => ItemsAreLossless(v, w);
    case (AList(vs), AList(ws)) => ItemsAreLossless(v, w);
    case _ =>
  }

  lemma {:induction false} ItemsAreLossless(v: AbiValue, w: AbiValue)
    requires (v.ATuple? && w.ATuple?) || (v.AList? && w.AList?)
    requires SameShape(v, w) && ParseArguments(v.items) == ParseArguments(w.items)
    ensures v.items == w.items
    decreases v, 0
  {
    assert |ParseArguments(v.items)| == |ParseArguments(w.items)|;
    forall i | 0 <= i < |v.items| ensures v.items[i] == w.items[i] {
      assert ParseArguments(v.items)[i] == ParseArguments(w.items)[i];
      ParsingIsLossless(v.items[i], w.items[i]);
    }
  }

  /******* Results *******/

  datatype Parameter = Parameter(name: string, kind: string, value: Json, decoded: Nested)

  /** `value_decoded`: the key is absent, or `None`, or holds what was decoded. */
  datatype Nested =
    | NotDecoded
    | NoneDecoded
    | Transactions(txs: seq<MultisendDecoded>)
    | Call(call: DataDecoded)

  datatype MultisendDecoded = MultisendDecoded(tx: Rendered, dataDecoded: Option<DataDecoded>)

  datatype DataDecoded = DataDecoded(fnName: string, parameters: seq<Parameter>)

  datatype Failure = CannotDecode | UnexpectedProblemDecoding

  datatype Result<+T> = Success(value: T) | Failed(error: Failure)

  datatype Counted<+T> = Counted(value: T, attempts: nat)

  /******* The surroundings of the decoder *******/

  const EXEC_TRANSACTION_SELECTOR: Selector := [0x6a, 0x76, 0x12, 0x02]

  /** Function lookup, ABI decoding and the MultiSend parser, as the decoder calls them. */
  datatype Library = Library(
    getAbiFunction: (Bytes, Option<string>, Option<int>) -> Option<AbiFunction>,
    decodeAbi: (AbiFunction, Bytes) -> Option<seq<AbiValue>>,
    multisendSelectors: set<Bytes>,
    fromTransactionData: Bytes -> Option<seq<Transaction>>)

  function Params(data: Bytes): (params: Bytes)
    ensures |params| == if |data| < 4 then 0 else |data| - 4
  {
    if |data| < 4 then [] else data[4..]
  }

  /** A dynamic `bytes` argument lies in the parameters behind its 32-byte length word. */
  ghost predicate LiesBehindLengthWord(params: Bytes, bytes: Bytes) {
    exists k :: 32 <= k && IsSliceAt(params, k, bytes)
  }

  predicate IsSliceAt(whole: Bytes, k: nat, part: Bytes) {
    k + |part| <= |whole| && whole[k..k + |part|] == part
  }

  function Zip(fn: AbiFunction, values: seq<Json>): (parameters: seq<Parameter>)
    ensures |parameters| == if |fn.inputs| < |values| then |fn.inputs| else |values|
    ensures forall i | 0 <= i < |parameters| ::
              parameters[i] == Parameter(fn.inputs[i].name, fn.inputs[i].kind, values[i], NotDecoded)
  {
    var n := if |fn.inputs| < |values| then |fn.inputs| else |values|;
    seq(n, i requires 0 <= i < n => Parameter(fn.inputs[i].name, fn.inputs[i].kind, values[i], NotDecoded))
  }

  /** A MultiSend function has an argument; argument 0 of `execTransaction` is an address and
      argument 2 a `bytes`. */
  ghost predicate ArgumentsFit(lib: Library, data: Bytes, fn: AbiFunction, values: seq<AbiValue>) {
    var selector := FunctionLookup.SelectorOf(data);
    && (selector in lib.multisendSelectors ==> |fn.inputs| > 0 && |values| > 0)
    && (selector == EXEC_TRANSACTION_SELECTOR && |values| > 2 ==>
          values[0].AText? && values[2].ABytes? && LiesBehindLengthWord(Params(data), values[2].bytes))
  }

  /** The transactions of a MultiSend call come from a payload behind its length word. */
  ghost predicate PayloadFits(data: Bytes, txs: seq<Transaction>) {
    txs == [] || exists payload :: ParseAll(payload) == Some(txs) && LiesBehindLengthWord(Params(data), payload)
  }

  /** What is assumed of the surroundings. */
  ghost predicate WellBehaved(lib: Library) {
    && (forall data, address, chain ::
          var fn := lib.getAbiFunction(data, address, chain);
          fn.Some? && lib.decodeAbi(fn.value, Params(data)).Some? ==>
            ArgumentsFit(lib, data, fn.value, lib.decodeAbi(fn.value, Params(data)).value))
    && (forall data :: lib.fromTransactionData(data).Some? ==> PayloadFits(data, lib.fromTransactionData(data).value))
  }

  /******* The decoder *******/

  /** `_decode_data`. */
  function DecodeData(lib: Library, data: Bytes, address: Option<string>, chain: Option<int>):
    Result<(string, seq<Parameter>)>
  {
    if data == [] then Failed(CannotDecode)
    else
      match lib.getAbiFunction(data, address, chain)
      case None => Failed(CannotDecode)
      case Some(fn) =>
        match lib.decodeAbi(fn, Params(data))
        case None => Failed(UnexpectedProblemDecoding)
        case Some(values) => Success((fn.name, Zip(fn, ParseArguments(values))))
  }

  /** The bytes `execTransaction` carries, read back from the text of parameter 2. */
  function InnerCall(parameters: seq<Parameter>): Option<Bytes> {
    if |parameters| > 2 && parameters[2].value.Str? then ParseHex(parameters[2].value.s) else None
  }

  function AddressText(parameter: Parameter): Option<string> {
    if parameter.value.Str? then Some(parameter.value.s) else None
  }

  /** The parameters come from decoding `data`, so a nested call leaves room for the selector and
      the length word. */
  ghost predicate NestedFits(lib: Library, data: Bytes, parameters: seq<Parameter>) {
    var selector := FunctionLookup.SelectorOf(data);
    && (selector in lib.multisendSelectors ==> parameters != [])
    && (selector == EXEC_TRANSACTION_SELECTOR && |parameters| > 2 ==>
          InnerCall(parameters).Some? && |InnerCall(parameters).value| + 36 <= |data|)
  }

  lemma DecodedParametersFit(lib: Library, data: Bytes, address: Option<string>, chain: Option<int>)
    requires WellBehaved(lib) && DecodeData(lib, data, address, chain).Success?
    ensures NestedFits(lib, data, DecodeData(lib, data, address, chain).value.1)
  {
    var fn := lib.getAbiFunction(data, address, chain).value;
    var values := lib.decodeAbi(fn, Params(data)).value;
    assert ArgumentsFit(lib, data, fn, values);
    var parameters := DecodeData(lib, data, address, chain).value.1;
    if FunctionLookup.SelectorOf(data) == EXEC_TRANSACTION_SELECTOR && |parameters| > 2 {
      assert parameters[2].value == Str(Hex(values[2].bytes));
      HexRoundTrip(values[2].bytes);
    }
  }

  lemma PayloadLeavesRoom(data: Bytes, txs: seq<Transaction>)
    requires PayloadFits(data, txs)
    ensures txs != [] ==> TotalLength(txs) + 36 <= |data|
  {
    if txs != [] {
      var payload :| ParseAll(payload) == Some(txs) && LiesBehindLengthWord(Params(data), payload);
      ParsesIffEncodes(payload, txs);
      EncodedLength(txs);
    }
  }

  function GetDataDecoded(lib: Library, data: Bytes, address: Option<string>, chain: Option<int>):
    (r: Counted<Option<DataDecoded>>)
    requires WellBehaved(lib)
    ensures 36 * r.attempts <= if data == [] then 0 else 36 + |data|
    decreases |data|, 3
  {
    if data == [] then Counted(None, 0)
    else
      var r := DecodeTransactionWithTypes(lib, data, address, chain);
      Counted(if r.value.Success? then Some(r.value.value) else None, 1 + r.attempts)
  }

  function DecodeTransactionWithTypes(lib: Library, data: Bytes, address: Option<string>, chain: Option<int>):
    (r: Counted<Result<DataDecoded>>)
    requires WellBehaved(lib)
    ensures 36 * r.attempts <= |data|
    decreases |data|, 2
  {
    match DecodeData(lib, data, address, chain)
    case Failed(error) => Counted(Failed(error), 0)
    case Success((name, parameters)) =>
      DecodedParametersFit(lib, data, address, chain);
      var nested := DecodeParametersData(lib, data, parameters, chain);
      Counted(Success(DataDecoded(name, nested.value)), nested.attempts)
  }

  function DecodeParametersData(lib: Library, data: Bytes, parameters: seq<Parameter>, chain: Option<int>):
    (r: Counted<seq<Parameter>>)
    requires WellBehaved(lib) && NestedFits(lib, data, parameters)
    ensures 36 * r.attempts <= |data|
    ensures |r.value| == |parameters|
    decreases |data|, 1
  {
    var selector := FunctionLookup.SelectorOf(data);
    if selector in lib.multisendSelectors then
      var txs := DecodeMultisendData(lib, data, chain);
      var nested := if txs.value.None? then NoneDecoded else Transactions(txs.value.value);
      Counted(parameters[0 := parameters[0].(decoded := nested)], txs.attempts)
    else if selector == EXEC_TRANSACTION_SELECTOR && |parameters| > 2 && InnerCall(parameters).value != [] then
      var inner := GetDataDecoded(lib, InnerCall(parameters).value, AddressText(parameters[0]), chain);
      var nested := if inner.value.None? then NoneDecoded else Call(inner.value.value);
      Counted(parameters[2 := parameters[2].(decoded := nested)], inner.attempts)
    else Counted(parameters, 0)
  }

  function DecodeMultisendData(lib: Library, data: Bytes, chain: Option<int>):
    (r: Counted<Option<seq<MultisendDecoded>>>)
    requires WellBehaved(lib)
    ensures 36 * r.attempts <= |data|
    decreases |data|, 0
  {
    match lib.fromTransactionData(data)
    case None => Counted(None, 0)
    case Some(txs) =>
      PayloadLeavesRoom(data, txs);
      if txs == [] then Counted(Some([]), 0)
      else
        var decoded := DecodeTransactions(lib, txs, chain);
        Counted(Some(decoded.value), decoded.attempts)
  }

  function DecodeTransactions(lib: Library, txs: seq<Transaction>, chain: Option<int>):
    (r: Counted<seq<MultisendDecoded>>)
    requires WellBehaved(lib)
    ensures 36 * r.attempts <= TotalLength(txs)
    ensures |r.value| == |txs| && forall i | 0 <= i < |txs| :: r.value[i].tx == Render(txs[i])
    decreases TotalLength(txs), 0
  {
    if txs == [] then Counted([], 0)
    else
      var first := GetDataDecoded(lib, txs[0].data, Some(Hex(txs[0].to)), chain);
      var rest := DecodeTransactions(lib, txs[1..], chain);
      Counted([MultisendDecoded(Render(txs[0]), first.value)] + rest.value, first.attempts + rest.attempts)
  }

  /******* The answer *******/

  /** Nothing to decode, no function, or parameters that do not fit the function. */
  ghost predicate Undecodable(lib: Library, data: Bytes, address: Option<string>, chain: Option<int>) {
    || data == []
    || (var fn := lib.getAbiFunction(data, address, chain);
        fn.None? || lib.decodeAbi(fn.value, if |data| < 4 then [] else data[4..]).None?)
  }

  /** `answer` is what decoding the data gives, stated on the data and the library alone. */
  ghost predicate IsAnswer(
    lib: Library, data: Bytes, address: Option<string>, chain: Option<int>, answer: Option<DataDecoded>)
    decreases answer
  {
    match answer
    case None => Undecodable(lib, data, address, chain)
    case Some(d) => !Undecodable(lib, data, address, chain) && IsDecoded(lib, data, address, chain, d)
  }

  /** The function's name, and a parameter for each input that has a value. */
  ghost predicate IsDecoded(
    lib: Library, data: Bytes, address: Option<string>, chain: Option<int>, d: DataDecoded)
    requires !Undecodable(lib, data, address, chain)
    decreases d
  {
    var fn := lib.getAbiFunction(data, address, chain).value;
    var values := lib.decodeAbi(fn, if |data| < 4 then [] else data[4..]).value;
    && d.fnName == fn.name
    && |d.parameters| == (if |fn.inputs| < |values| then |fn.inputs| else |values|)
    && forall i | 0 <= i < |d.parameters| :: IsParameter(lib, data, chain, fn.inputs[i], values, i, d.parameters[i])
  }

  /** The name and kind of the input and the text of the value. Nothing more, except for argument 0 of a
      MultiSend, and for argument 2 of an `execTransaction` if it carries bytes. */
  ghost predicate IsParameter(
    lib: Library, data: Bytes, chain: Option<int>, input: AbiInput, values: seq<AbiValue>, i: nat, p: Parameter)
    requires i < |values|
    decreases p
  {
    var selector := if |data| < 4 then data else data[..4];
    && p.name == input.name && p.kind == input.kind && IsTextOf(values[i], p.value)
    && if selector in lib.multisendSelectors then
         if i == 0 then IsMultisendAnswer(lib, data, chain, p.decoded) else p.decoded == NotDecoded
       else if selector == [0x6a, 0x76, 0x12, 0x02] && i == 2
            && values[0].AText? && values[2].ABytes? && values[2].bytes != [] then
         IsCallAnswer(lib, values[2].bytes, values[0].s, chain, p.decoded)
       else p.decoded == NotDecoded
  }

  /** None iff the parser fails; else one entry a transaction, in order: its text, and the answer for its
      data with its own address and the same chain. */
  ghost predicate IsMultisendAnswer(lib: Library, data: Bytes, chain: Option<int>, nested: Nested)
    decreases nested
  {
    var txs := lib.fromTransactionData(data);
    match nested
    case NoneDecoded => txs.None?
    case Transactions(entries) =>
      && txs.Some? && |entries| == |txs.value|
      && forall i | 0 <= i < |entries| ::
           && entries[i].tx
              == Rendered(txs.value[i].operation, Hex(txs.value[i].to), Decimal(txs.value[i].value),
                          if txs.value[i].data == [] then None else Some(Hex(txs.value[i].data)))
           && IsAnswer(lib, txs.value[i].data, Some(Hex(txs.value[i].to)), chain, entries[i].dataDecoded)
    case _ => false
  }

  /** The answer for the bytes of the inner call, with the text of argument 0 as address. */
  ghost predicate IsCallAnswer(lib: Library, data: Bytes, address: string, chain: Option<int>, nested: Nested)
    decreases nested
  {
    match nested
    case NoneDecoded => Undecodable(lib, data, Some(address), chain)
    case Call(d) => !Undecodable(lib, data, Some(address), chain) && IsDecoded(lib, data, Some(address), chain, d)
    case _ => false
  }

  /** The decoder gives the answer: `None` for what cannot be decoded, and everything else in full. */
  lemma {:induction false} GivesTheAnswer(lib: Library, data: Bytes, address: Option<string>, chain: Option<int>)
    requires WellBehaved(lib)
    ensures IsAnswer(lib, data, address, chain, GetDataDecoded(lib, data, address, chain).value)
    decreases |data|, 3
  {
    if data == [] {
    } else {
      WithTypesGivesTheAnswer(lib, data, address, chain);
    }
  }

  /** So does `decode_transaction_with_types`, which tells the two failures apart. */
  lemma {:induction false} WithTypesGivesTheAnswer(
    lib: Library, data: Bytes, address: Option<string>, chain: Option<int>)
    requires WellBehaved(lib)
    ensures match DecodeTransactionWithTypes(lib, data, address, chain).value
            case Success(d) => !Undecodable(lib, data, address, chain) && IsDecoded(lib, data, address, chain, d)
            case Failed(error) =>
              && Undecodable(lib, data, address, chain)
              && (error == CannotDecode <==> data == [] || lib.getAbiFunction(data, address, chain).None?)
    decreases |data|, 2
  {
    if DecodeData(lib, data, address, chain).Success? {
      DecodedParametersFit(lib, data, address, chain);
      var fn := lib.getAbiFunction(data, address, chain).value;
      var values := lib.decodeAbi(fn, Params(data)).value;
      assert Params(data) == if |data| < 4 then [] else data[4..];
      ParametersGiveTheAnswer(lib, data, fn, values, chain);
    }
  }

  lemma {:induction false} ParametersGiveTheAnswer(
    lib: Library, data: Bytes, fn: AbiFunction, values: seq<AbiValue>, chain: Option<int>)
    requires WellBehaved(lib) && NestedFits(lib, data, Zip(fn, ParseArguments(values)))
    requires ArgumentsFit(lib, data, fn, values)
    ensures var parameters := DecodeParametersData(lib, data, Zip(fn, ParseArguments(values)), chain).value;
            forall i | 0 <= i < |parameters| :: IsParameter(lib, data, chain, fn.inputs[i], values, i, parameters[i])
    decreases |data|, 1
  {
    var selector := FunctionLookup.SelectorOf(data);
    forall i | 0 <= i < |values| ensures IsTextOf(values[i], ParseArguments(values)[i]) {
      ParseArgumentIff(values[i], ParseArgument(values[i]));
    }
    if selector in lib.multisendSelectors {
      MultisendGivesTheAnswer(lib, data, chain);
    } else if selector == EXEC_TRANSACTION_SELECTOR && |fn.inputs| > 2 && |values| > 2 {
      InnerCallIsArgument(fn, values);
      if values[2].bytes != [] {
        GivesTheAnswer(lib, values[2].bytes, Some(values[0].s), chain);
      }
    }
  }

  /** The inner call and its address are read back from the text of the parameters. */
  lemma InnerCallIsArgument(fn: AbiFunction, values: seq<AbiValue>)
    requires |fn.inputs| > 2 && |values| > 2 && values[0].AText? && values[2].ABytes?
    ensures var parameters := Zip(fn, ParseArguments(values));
            InnerCall(parameters) == Some(values[2].bytes) && AddressText(parameters[0]) == Some(values[0].s)
  {
    var parameters := Zip(fn, ParseArguments(values));
    assert parameters[0].value == ParseArgument(values[0]) && parameters[2].value == ParseArgument(values[2]);
    HexRoundTrip(values[2].bytes);
  }

  lemma {:induction false} MultisendGivesTheAnswer(lib: Library, data: Bytes, chain: Option<int>)
    requires WellBehaved(lib)
    ensures var txs := DecodeMultisendData(lib, data, chain).value;
            IsMultisendAnswer(lib, data, chain, if txs.None? then NoneDecoded else Transactions(txs.value))
    decreases |data|, 0
  {
    var txs := lib.fromTransactionData(data);
    if txs.Some? && txs.value != [] {
      PayloadLeavesRoom(data, txs.value);
      TransactionsGiveTheAnswer(lib, txs.value, chain);
    }
  }

  lemma {:induction false} TransactionsGiveTheAnswer(lib: Library, txs: seq<Transaction>, chain: Option<int>)
    requires WellBehaved(lib)
    ensures var entries := DecodeTransactions(lib, txs, chain).value;
            forall i | 0 <= i < |txs| ::
              IsAnswer(lib, txs[i].data, Some(Hex(txs[i].to)), chain, entries[i].dataDecoded)
    decreases TotalLength(txs), 0
  {
    if txs == [] {
    } else {
      GivesTheAnswer(lib, txs[0].data, Some(Hex(txs[0].to)), chain);
      TransactionsGiveTheAnswer(lib, txs[1..], chain);
      var entries, rest := DecodeTransactions(lib, txs, chain).value, DecodeTransactions(lib, txs[1..], chain).value;
      forall i | 0 <= i < |txs|
        ensures IsAnswer(lib, txs[i].data, Some(Hex(txs[i].to)), chain, entries[i].dataDecoded)
      {
        if i > 0 {
          assert entries[i] == rest[i - 1] && txs[i] == txs[1..][i - 1];
        }
      }
    }
  }

  /** There is one answer only. */
  lemma {:induction false} AnswerIsUnique(
    lib: Library, data: Bytes, address: Option<string>, chain: Option<int>,
    x: Option<DataDecoded>, y: Option<DataDecoded>)
    requires IsAnswer(lib, data, address, chain, x) && IsAnswer(lib, data, address, chain, y)
    ensures x == y
    decreases x
  {
    if x.Some? {
      DecodedIsUnique(lib, data, address, chain, x.value, y.value);
    }
  }

  lemma {:induction false} DecodedIsUnique(
    lib: Library, data: Bytes, address: Option<string>, chain: Option<int>, x: DataDecoded, y: DataDecoded)
    requires !Undecodable(lib, data, address, chain)
    requires IsDecoded(lib, data, address, chain, x) && IsDecoded(lib, data, address, chain, y)
    ensures x == y
    decreases x
  {
    var fn := lib.getAbiFunction(data, address, chain).value;
    var values := lib.decodeAbi(fn, if |data| < 4 then [] else data[4..]).value;
    forall i | 0 <= i < |x.parameters| ensures x.parameters[i] == y.parameters[i] {
      ParameterIsUnique(lib, data, chain, fn.inputs[i], values, i, x.parameters[i], y.parameters[i]);
    }
  }

  lemma {:induction false} ParameterIsUnique(
    lib: Library, data: Bytes, chain: Option<int>, input: AbiInput, values: seq<AbiValue>, i: nat,
    x: Parameter, y: Parameter)
    requires i < |values|
    requires IsParameter(lib, data, chain, input, values, i, x) && IsParameter(lib, data, chain, input, values, i, y)
    ensures x == y
    decreases x
  {
    ParseArgumentIff(values[i], x.value);
    ParseArgumentIff(values[i], y.value);
    match x.decoded
    case Transactions(entries) => MultisendIsUnique(lib, data, chain, x.decoded, y.decoded);
    case Call(d) => DecodedIsUnique(lib, values[2].bytes, Some(values[0].s), chain, d, y.decoded.call);
    case _ =>
  }

  lemma {:induction false} MultisendIsUnique(lib: Library, data: Bytes, chain: Option<int>, x: Nested, y: Nested)
    requires x.Transactions? && IsMultisendAnswer(lib, data, chain, x) && IsMultisendAnswer(lib, data, chain, y)
    ensures x == y
    decreases x
  {
    var txs := lib.fromTransactionData(data).value;
    forall i | 0 <= i < |txs| ensures x.txs[i] == y.txs[i] {
      AnswerIsUnique(
        lib, txs[i].data, Some(Hex(txs[i].to)), chain, x.txs[i].dataDecoded, y.txs[i].dataDecoded);
    }
  }

  /******* How many payloads are tried *******/

  /** However payloads are nested, decoding `L` bytes tries at most `1 + L / 36` payloads. */
  lemma AttemptsAreBounded(lib: Library, data: Bytes, address: Option<string>, chain: Option<int>)
    requires WellBehaved(lib)
    ensures GetDataDecoded(lib, data, address, chain).attempts <= 1 + |data| / 36
  {
  }

  /** Calls nested in calls, each in the least room that the assumptions leave: a selector and a length
      word. The real `execTransaction` has ten arguments and takes more. */
  function NestedCalls(depth: nat): (data: Bytes)
    ensures |data| == 36 * depth + 1
  {
    if depth == 0 then [0] else Wrap(NestedCalls(depth - 1))
  }

  function Wrap(inner: Bytes): (data: Bytes)
    ensures |data| == 36 + |inner|
  {
    EXEC_TRANSACTION_SELECTOR + seq(32, _ => 0) + inner
  }

  /** Knows `execTransaction` only, and decodes it from a single word and the inner call. */
  function ThriftyLibrary(): Library {
    var input := AbiInput("", "");
    Library(
      (data, address, chain) =>
        if FunctionLookup.SelectorOf(data) == EXEC_TRANSACTION_SELECTOR
        then Some(AbiFunction(EXEC_TRANSACTION_SELECTOR, "execTransaction", [input, input, input])) else None,
      (fn, params) =>
        if |params| < 32 then None else Some([AText("0x"), AInt(0), ABytes(params[32..])]),
      {},
      data => None)
  }

  lemma ThriftyLibraryIsWellBehaved()
    ensures WellBehaved(ThriftyLibrary())
  {
    var lib := ThriftyLibrary();
    forall data: Bytes, address: Option<string>, chain: Option<int>
      ensures var fn := lib.getAbiFunction(data, address, chain);
              fn.Some? && lib.decodeAbi(fn.value, Params(data)).Some? ==>
                ArgumentsFit(lib, data, fn.value, lib.decodeAbi(fn.value, Params(data)).value)
    {
      var params := Params(data);
      if |params| >= 32 {
        assert IsSliceAt(params, 32, params[32..]);
      }
    }
  }

  lemma ThriftyDecode(inner: Bytes, address: Option<string>, chain: Option<int>)
    ensures var data := Wrap(inner);
            var decoded := DecodeData(ThriftyLibrary(), data, address, chain);
            && FunctionLookup.SelectorOf(data) == EXEC_TRANSACTION_SELECTOR
            && decoded.Success? && |decoded.value.1| == 3
            && InnerCall(decoded.value.1) == Some(inner) && AddressText(decoded.value.1[0]) == Some("0x")
  {
    var lib, data := ThriftyLibrary(), Wrap(inner);
    assert data[..4] == EXEC_TRANSACTION_SELECTOR && Params(data)[32..] == inner;
    var fn := lib.getAbiFunction(data, address, chain).value;
    var values := [AText("0x"), AInt(0), ABytes(inner)];
    assert lib.decodeAbi(fn, Params(data)) == Some(values);
    var parameters := Zip(fn, ParseArguments(values));
    assert parameters[2].value == ParseArgument(values[2]) && parameters[0].value == ParseArgument(values[0]);
    HexRoundTrip(inner);
  }

  /** A call inside `execTransaction` adds one attempt to those of the inner call. */
  lemma InnerCallAttempts(lib: Library, data: Bytes, address: Option<string>, chain: Option<int>)
    requires WellBehaved(lib) && DecodeData(lib, data, address, chain).Success?
    requires FunctionLookup.SelectorOf(data) == EXEC_TRANSACTION_SELECTOR
    requires EXEC_TRANSACTION_SELECTOR !in lib.multisendSelectors
    requires |DecodeData(lib, data, address, chain).value.1| > 2
    requires InnerCall(DecodeData(lib, data, address, chain).value.1).Some?
    ensures var parameters := DecodeData(lib, data, address, chain).value.1;
            GetDataDecoded(lib, data, address, chain).attempts
            == 1 + GetDataDecoded(lib, InnerCall(parameters).value, AddressText(parameters[0]), chain).attempts
  {
    var parameters := DecodeData(lib, data, address, chain).value.1;
    DecodedParametersFit(lib, data, address, chain);
    assert GetDataDecoded(lib, data, address, chain).attempts
           == 1 + DecodeParametersData(lib, data, parameters, chain).attempts;
  }

  /** How many payloads are tried, as a function of the call alone. */
  ghost function Attempts(lib: Library): (Bytes, Option<string>, Option<int>) -> nat
    requires WellBehaved(lib)
  {
    (data, address, chain) => if WellBehaved(lib) then GetDataDecoded(lib, data, address, chain).attempts else 0
  }

  /** Every wrapping costs one attempt, and the innermost byte one. */
  ghost predicate Thrifty(attempts: (Bytes, Option<string>, Option<int>) -> nat) {
    && (forall inner, address, chain ::
          attempts(Wrap(inner), address, chain) == 1 + attempts(inner, Some("0x"), chain))
    && forall address, chain :: attempts([0], address, chain) == 1
  }

  lemma {:induction false} NestedCallsAttempts(
    attempts: (Bytes, Option<string>, Option<int>) -> nat, depth: nat, address: Option<string>, chain: Option<int>)
    requires Thrifty(attempts)
    ensures attempts(NestedCalls(depth), address, chain) == 1 + depth
  {
    if depth == 0 {
    } else {
      NestedCallsAttempts(attempts, depth - 1, Some("0x"), chain);
      assert attempts(Wrap(NestedCalls(depth - 1)), address, chain)
             == 1 + attempts(NestedCalls(depth - 1), Some("0x"), chain);
    }
  }

  lemma UndecodableAttempts(lib: Library, data: Bytes, address: Option<string>, chain: Option<int>)
    requires WellBehaved(lib) && data != [] && DecodeData(lib, data, address, chain).Failed?
    ensures GetDataDecoded(lib, data, address, chain).attempts == 1
  {
  }

  lemma ThriftyLibraryIsThrifty()
    ensures WellBehaved(ThriftyLibrary()) && Thrifty(Attempts(ThriftyLibrary()))
  {
    var lib := ThriftyLibrary();
    ThriftyLibraryIsWellBehaved();
    forall inner, address, chain
      ensures Attempts(lib)(Wrap(inner), address, chain) == 1 + Attempts(lib)(inner, Some("0x"), chain)
    {
      ThriftyDecode(inner, address, chain);
      InnerCallAttempts(lib, Wrap(inner), address, chain);
    }
    forall address, chain ensures Attempts(lib)([0], address, chain) == 1 {
      UndecodableAttempts(lib, [0], address, chain);
    }
  }

  /** The assumptions alone give no better bound: a library that meets them, though not the real one,
      reaches it at every depth. */
  lemma AssumptionsGiveNoBetterBound(depth: nat, address: Option<string>, chain: Option<int>)
    ensures WellBehaved(ThriftyLibrary())
    ensures GetDataDecoded(ThriftyLibrary(), NestedCalls(depth), address, chain).attempts
            == 1 + |NestedCalls(depth)| / 36
  {
    ThriftyLibraryIsThrifty();
    NestedCallsAttempts(Attempts(ThriftyLibrary()), depth, address, chain);
    assert (36 * depth + 1) / 36 == depth;
  }

  function TransactionTexts(decoded: seq<MultisendDecoded>): (texts: seq<Rendered>)
    ensures |texts| == |decoded| && forall i | 0 <= i < |decoded| :: texts[i] == decoded[i].tx
  {
    seq(|decoded|, i requires 0 <= i < |decoded| => decoded[i].tx)
  }

  /** A decoded MultiSend call keeps its transactions in order and number, and their text encodes
      to exactly the payload of the call. */
  lemma DecodedMultisendReencodes(lib: Library, data: Bytes, payload: Bytes, chain: Option<int>)
    requires WellBehaved(lib)
    requires ParseAll(payload).Some? && lib.fromTransactionData(data) == ParseAll(payload)
    ensures var decoded := DecodeMultisendData(lib, data, chain).value;
            && decoded.Some? && |decoded.value| == |ParseAll(payload).value|
            && ReadBackAll(TransactionTexts(decoded.value)) == ParseAll(payload)
            && EncodeAll(ReadBackAll(TransactionTexts(decoded.value)).value) == payload
  {
    var txs := ParseAll(payload).value;
    var decoded := DecodeMultisendData(lib, data, chain).value.value;
    assert TransactionTexts(decoded) == RenderAll(txs);
    RenderAllRoundTrip(txs);
    DecodedTextReencodes(payload);
  }

  /** `decode_parameters_data` writes into the list it is given. */
  method DecodeParametersInPlace(lib: Library, data: Bytes, parameters: array<Parameter>, chain: Option<int>)
    requires WellBehaved(lib) && NestedFits(lib, data, parameters[..])
    modifies parameters
    ensures parameters[..] == DecodeParametersData(lib, data, old(parameters[..]), chain).value
  {
    var selector := FunctionLookup.SelectorOf(data);
    if selector in lib.multisendSelectors {
      var txs := DecodeMultisendData(lib, data, chain).value;
      parameters[0] := parameters[0].(decoded := if txs.None? then NoneDecoded else Transactions(txs.value));
    } else if selector == EXEC_TRANSACTION_SELECTOR && parameters.Length > 2 {
      assert parameters[..][2] == parameters[2];
      var inner := InnerCall(parameters[..]).value;
      if inner != [] {
        var call := GetDataDecoded(lib, inner, AddressText(parameters[0]), chain).value;
        parameters[2] := parameters[2].(decoded := if call.None? then NoneDecoded else Call(call.value));
      }
    }
  }
}
