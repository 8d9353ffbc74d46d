/**
 The bytes a transaction is signed over, built twice: by the payload itself, and by the wallet's
 encoder from the JSON it is handed.
 */
module SigningData {
  import opened Prelude
  import opened Scale
  import opened Mortality
  import opened Extrinsics
  import opened WireLayout
  import opened CallLayout
  import Hex

  // ---------------------------------------------------------------- the payload's own bytes

  datatype Additional = Additional(specVersion: U32, txVersion: U32, genesisHash: Bytes32, forkHash: Bytes32)

  datatype Payload = Payload(call: ExtrinsicCall, extra: ExtrinsicExtra, additional: Additional)

  function EncodeAdditional(a: Additional): Bytes {
    LE(a.specVersion, 4) + LE(a.txVersion, 4) + a.genesisHash + a.forkHash
  }

  function SigningBytes(p: Payload): Bytes {
    EncodeCall(p.call) + EncodeExtra(p.extra) + EncodeAdditional(p.additional)
  }

  /**
   Where every byte of the signing data stands: the call, the extra, the two versions lowest byte first,
   the genesis hash and the hash the mortality is anchored to.
   */
  lemma {:induction false} SigningBytesLayout(p: Payload)
    ensures var b := SigningBytes(p);
      var extraAt := 2 + |p.call.data|;
      var versionsAt := extraAt + ExtraWidth(p.extra);
      && |b| == versionsAt + 72 && b[0] == p.call.palletId && b[1] == p.call.variantId
      && StandsAt(b, 2, p.call.data) && ExtraAt(b, extraAt, p.extra)
      && U32At(b, versionsAt, p.additional.specVersion) && U32At(b, versionsAt + 4, p.additional.txVersion)
      && StandsAt(b, versionsAt + 8, p.additional.genesisHash) && StandsAt(b, versionsAt + 40, p.additional.forkHash)
  {
    hide EncodeExtra, ExtraAt, LE, U32At;
    var call, extra := EncodeCall(p.call), EncodeExtra(p.extra);
    var spec, tx := LE(p.additional.specVersion, 4), LE(p.additional.txVersion, 4);
    var genesis: Bytes, fork: Bytes := p.additional.genesisHash, p.additional.forkHash;
    var b := SigningBytes(p);
    assert b == call + extra + (spec + tx + genesis + fork);
    ExtraIsLaidOut(call, p.extra, spec + tx + genesis + fork);
    assert b == (call + extra) + spec + (tx + genesis + fork);
    U32IsLaidOut(call + extra, p.additional.specVersion, tx + genesis + fork);
    assert b == (call + extra + spec) + tx + (genesis + fork);
    U32IsLaidOut(call + extra + spec, p.additional.txVersion, genesis + fork);
    assert b == (call + extra + spec + tx) + genesis + fork;
    StandsAfter(call + extra + spec + tx, genesis, fork);
    assert b == (call + extra + spec + tx + genesis) + fork + [];
    StandsAfter(call + extra + spec + tx + genesis, fork, []);
    assert b == [p.call.palletId, p.call.variantId] + p.call.data + (extra + (spec + tx + genesis + fork));
    StandsAfter([p.call.palletId, p.call.variantId], p.call.data, extra + (spec + tx + genesis + fork));
  }

  // ---------------------------------------------------------------- the wallet's encoder

  datatype Json = Str(s: string) | Num(n: nat) | Arr(items: seq<Json>)

  type JsonObject = map<string, Json>

  /** What a signed extension contributes, if it is known. */
  datatype Extension = Mortality | Nonce | Payment | AppId | SpecVersion | TxVersion | Genesis | Silent

  function ExtensionNamed(name: string): Option<Extension> {
    if name == "CheckMortality" || name == "CheckEra" then Some(Mortality)
    else if name == "CheckNonce" then Some(Nonce)
    else if name == "ChargeTransactionPayment" then Some(Payment)
    else if name == "CheckAppId" then Some(AppId)
    else if name == "CheckSpecVersion" then Some(SpecVersion)
    else if name == "CheckTxVersion" then Some(TxVersion)
    else if name == "CheckGenesis" then Some(Genesis)
    else if name == "CheckNonZeroSender" || name == "CheckWeight" then Some(Silent)
    else None
  }

  /** The ten extension names the wallet knows. */
  lemma KnownNames(name: string)
    ensures ExtensionNamed(name) == None <==>
      name !in {"CheckMortality", "CheckEra", "CheckNonce", "ChargeTransactionPayment", "CheckAppId",
                "CheckSpecVersion", "CheckTxVersion", "CheckGenesis", "CheckNonZeroSender", "CheckWeight"}
    ensures ExtensionNamed("CheckMortality") == ExtensionNamed("CheckEra") == Some(Mortality)
    ensures ExtensionNamed("CheckNonce") == Some(Nonce) && ExtensionNamed("ChargeTransactionPayment") == Some(Payment)
    ensures ExtensionNamed("CheckAppId") == Some(AppId) && ExtensionNamed("CheckSpecVersion") == Some(SpecVersion)
    ensures ExtensionNamed("CheckTxVersion") == Some(TxVersion) && ExtensionNamed("CheckGenesis") == Some(Genesis)
    ensures ExtensionNamed("CheckNonZeroSender") == ExtensionNamed("CheckWeight") == Some(Silent)
  {
  }

  function JsonString(value: JsonObject, key: string): Option<string> {
    if key in value && value[key].Str? then Some(value[key].s) else None
  }

  function JsonHexBytes(value: JsonObject, key: string): Option<Bytes> {
    match JsonString(value, key)
    case None => None
    case Some(s) => Hex.DecodePrefixed(s)
  }

  function JsonNumericHex(value: JsonObject, key: string, width: nat): Option<nat> {
    match JsonString(value, key)
    case None => None
    case Some(s) => Hex.ParseNumericHex(s, width)
  }

  function JsonU32(value: JsonObject, key: string): Option<U32> {
    match JsonNumericHex(value, key, 8)
    case Some(n) => if n < U32_RANGE then Some(n) else None
    case None => None
  }

  function JsonU128(value: JsonObject, key: string): Option<U128> {
    match JsonNumericHex(value, key, 32)
    case Some(n) => if n < U128_RANGE then Some(n) else None
    case None => None
  }

  function CompactOf(n: Option<nat>): Option<Bytes>
    requires n.Some? ==> n.value < U128_RANGE
  {
    if n.None? then None else Some(EncodeCompact(n.value))
  }

  function PlainOf(n: Option<U32>): Option<Bytes> {
    if n.None? then None else Some(LE(n.value, 4))
  }

  /** What an extension adds in the first pass, over the signed extra. */
  function FirstPiece(value: JsonObject, e: Extension): Option<Bytes> {
    match e
    case Mortality => JsonHexBytes(value, "era")
    case Nonce => CompactOf(JsonU32(value, "nonce"))
    case Payment => CompactOf(JsonU128(value, "tip"))
    case AppId =>
      if "appId" in value && value["appId"].Num? && value["appId"].n < U32_RANGE
      then Some(EncodeCompact(value["appId"].n)) else None
    case _ => Some([])
  }

  /** And in the second, over the additional signed data. */
  function SecondPiece(value: JsonObject, e: Extension): Option<Bytes> {
    match e
    case SpecVersion => PlainOf(JsonU32(value, "specVersion"))
    case TxVersion => PlainOf(JsonU32(value, "transactionVersion"))
    case Genesis => JsonHexBytes(value, "genesisHash")
    case Mortality => JsonHexBytes(value, "blockHash")
    case _ => Some([])
  }

  /** Which part of the JSON each extension needs in the first pass, and of what form. */
  lemma FirstPassNeeds(value: JsonObject, e: Extension)
    ensures FirstPiece(value, e).None? <==> match e
      case Mortality => JsonHexBytes(value, "era").None?
      case Nonce => "nonce" !in value || !value["nonce"].Str? || Hex.ParseNumericHex(value["nonce"].s, 8).None?
      case Payment => "tip" !in value || !value["tip"].Str? || Hex.ParseNumericHex(value["tip"].s, 32).None?
      case AppId => "appId" !in value || !value["appId"].Num? || value["appId"].n >= 0x1_0000_0000
      case _ => false
  {
    Hex.Widths();
    if e.Nonce? && "nonce" in value && value["nonce"].Str? && Hex.ParseNumericHex(value["nonce"].s, 8).Some? {
      Hex.ParsedFits(value["nonce"].s, 8);
    }
    if e.Payment? && "tip" in value && value["tip"].Str? && Hex.ParseNumericHex(value["tip"].s, 32).Some? {
      Hex.ParsedFits(value["tip"].s, 32);
    }
  }

  lemma SecondPassNeeds(value: JsonObject, e: Extension)
    ensures SecondPiece(value, e).None? <==> match e
      case SpecVersion =>
        "specVersion" !in value || !value["specVersion"].Str? || Hex.ParseNumericHex(value["specVersion"].s, 8).None?
      case TxVersion =>
        || "transactionVersion" !in value || !value["transactionVersion"].Str?
        || Hex.ParseNumericHex(value["transactionVersion"].s, 8).None?
      case Genesis => JsonHexBytes(value, "genesisHash").None?
      case Mortality => JsonHexBytes(value, "blockHash").None?
      case _ => false
  {
    Hex.Widths();
    if e.SpecVersion? && "specVersion" in value && value["specVersion"].Str?
       && Hex.ParseNumericHex(value["specVersion"].s, 8).Some? {
      Hex.ParsedFits(value["specVersion"].s, 8);
    }
    if e.TxVersion? && "transactionVersion" in value && value["transactionVersion"].Str?
       && Hex.ParseNumericHex(value["transactionVersion"].s, 8).Some? {
      Hex.ParsedFits(value["transactionVersion"].s, 8);
    }
  }

  function Piece(value: JsonObject, name: string, second: bool): Option<Bytes> {
    match ExtensionNamed(name)
    case None => None
    case Some(e) => if second then SecondPiece(value, e) else FirstPiece(value, e)
  }

  /** One pass over the extensions, in list order. */
  function Pass(value: JsonObject, names: seq<string>, second: bool): Option<Bytes> {
    if names == [] then Some([])
    else Join(Pass(value, names[..|names| - 1], second), Piece(value, names[|names| - 1], second))
  }

  function Join(a: Option<Bytes>, b: Option<Bytes>): Option<Bytes> {
    if a.None? || b.None? then None else Some(a.value + b.value)
  }

  function Names(items: seq<Json>): Option<seq<string>> {
    if items == [] then Some([])
    else
      match Names(items[..|items| - 1])
      case None => None
      case Some(ns) => if items[|items| - 1].Str? then Some(ns + [items[|items| - 1].s]) else None
  }

  function ExtensionNames(value: JsonObject): Option<seq<string>> {
    if "signedExtensions" in value && value["signedExtensions"].Arr? then Names(value["signedExtensions"].items)
    else None
  }

  function WalletBytes(value: JsonObject): Option<Bytes> {
    match ExtensionNames(value)
    case None => None
    case Some(names) => Join(Join(JsonHexBytes(value, "method"), Pass(value, names, false)), Pass(value, names, true))
  }

  /** `wallet_signing_data_from_json`: two loops that extend one buffer. */
  method WalletSigningData(value: JsonObject) returns (r: Result<Bytes>)
    ensures r.Ok? <==> WalletBytes(value).Some?
    ensures r.Ok? ==> Some(r.value) == WalletBytes(value)
  {
    hide ExtensionNamed, Piece, Names;
    var names := ExtensionNames(value);
    if names.None? { return Err(ValidationFailed); }
    var call := JsonHexBytes(value, "method");
    if call.None? { return Err(ValidationFailed); }
    var encoded := call.value;
    assert names.value[..0] == [];
    JoinNothing(call);
    for i := 0 to |names.value|
      invariant Some(encoded) == Join(call, Pass(value, names.value[..i], false))
    {
      var piece := Piece(value, names.value[i], false);
      PassStep(value, names.value, i, false);
      JoinAssociative(call, Pass(value, names.value[..i], false), piece);
      if piece.None? {
        PassFails(value, names.value, i, false);
        return Err(ValidationFailed);
      }
      encoded := encoded + piece.value;
    }
    assert names.value[..|names.value|] == names.value;
    ghost var first := encoded;
    JoinNothing(Some(first));
    for i := 0 to |names.value|
      invariant Some(encoded) == Join(Some(first), Pass(value, names.value[..i], true))
    {
      var piece := Piece(value, names.value[i], true);
      PassStep(value, names.value, i, true);
      JoinAssociative(Some(first), Pass(value, names.value[..i], true), piece);
      if piece.None? {
        PassFails(value, names.value, i, true);
        return Err(ValidationFailed);
      }
      encoded := encoded + piece.value;
    }
    r := Ok(encoded);
  }

  lemma JoinNothing(a: Option<Bytes>)
    ensures Join(a, Some([])) == a
  {
    if a.Some? { assert a.value + [] == a.value; }
  }

  lemma JoinAssociative(a: Option<Bytes>, b: Option<Bytes>, c: Option<Bytes>)
    ensures Join(a, Join(b, c)) == Join(Join(a, b), c)
  {
    if a.Some? && b.Some? && c.Some? { assert a.value + (b.value + c.value) == a.value + b.value + c.value; }
  }

  lemma PassStep(value: JsonObject, names: seq<string>, i: nat, second: bool)
    requires i < |names|
    ensures Pass(value, names[..i + 1], second) == Join(Pass(value, names[..i], second), Piece(value, names[i], second))
  {
    assert names[..i + 1][..i] == names[..i];
  }

  /** An extension that adds nothing known makes the whole pass fail. */
  lemma PassFails(value: JsonObject, names: seq<string>, i: nat, second: bool)
    requires i < |names| && Piece(value, names[i], second).None?
    ensures Pass(value, names, second).None?
  {
    if i == |names| - 1 {
    } else {
      PassFails(value, names[..|names| - 1], i, second);
    }
  }

  // ---------------------------------------------------------------- the prepared payload

  /** The JSON the wallet is handed for a payload, with a given extension list. */
  function Prepared(p: Payload, names: seq<string>): JsonObject {
    map[
      "method" := Str(Hex.EncodePrefixed(EncodeCall(p.call))),
      "era" := Str(Hex.EncodePrefixed(EncodeWireEra(p.extra.era))),
      "nonce" := Str(Hex.NumericHex(p.extra.nonce, 8)),
      "tip" := Str(Hex.NumericHex(p.extra.tip, 32)),
      "appId" := Num(p.extra.appId),
      "specVersion" := Str(Hex.NumericHex(p.additional.specVersion, 8)),
      "transactionVersion" := Str(Hex.NumericHex(p.additional.txVersion, 8)),
      "genesisHash" := Str(Hex.EncodePrefixed(p.additional.genesisHash)),
      "blockHash" := Str(Hex.EncodePrefixed(p.additional.forkHash)),
      "signedExtensions" := Arr(Strs(names))
    ]
  }

  function Strs(names: seq<string>): seq<Json> { seq(|names|, i requires 0 <= i < |names| => Str(names[i])) }

  /** The pieces the payload's own encoding has for each extension. */
  function OwnPiece(p: Payload, e: Extension, second: bool): Bytes {
    if second then
      match e
      case SpecVersion => LE(p.additional.specVersion, 4)
      case TxVersion => LE(p.additional.txVersion, 4)
      case Genesis => p.additional.genesisHash
      case Mortality => p.additional.forkHash
      case _ => []
    else
      match e
      case Mortality => EncodeWireEra(p.extra.era)
      case Nonce => EncodeCompact(p.extra.nonce)
      case Payment => EncodeCompact(p.extra.tip)
      case AppId => EncodeCompact(p.extra.appId)
      case _ => []
  }

  lemma PreparedEntries(p: Payload, names: seq<string>)
    ensures var v := Prepared(p, names);
      && JsonString(v, "era") == Some(Hex.EncodePrefixed(EncodeWireEra(p.extra.era)))
      && JsonString(v, "nonce") == Some(Hex.NumericHex(p.extra.nonce, 8))
      && JsonString(v, "tip") == Some(Hex.NumericHex(p.extra.tip, 32))
      && "appId" in v && v["appId"] == Num(p.extra.appId)
    ensures var v := Prepared(p, names);
      && JsonString(v, "specVersion") == Some(Hex.NumericHex(p.additional.specVersion, 8))
      && JsonString(v, "transactionVersion") == Some(Hex.NumericHex(p.additional.txVersion, 8))
      && JsonString(v, "genesisHash") == Some(Hex.EncodePrefixed(p.additional.genesisHash))
      && JsonString(v, "blockHash") == Some(Hex.EncodePrefixed(p.additional.forkHash))
  {
    hide Hex.NumericHex, Hex.EncodePrefixed, EncodeWireEra, EncodeCall, Strs;
  }

  /** Each part of the payload is read back from the JSON as it was. */
  lemma PreparedExtra(p: Payload, names: seq<string>)
    ensures var v := Prepared(p, names);
      && JsonHexBytes(v, "era") == Some(EncodeWireEra(p.extra.era))
      && JsonU32(v, "nonce") == Some(p.extra.nonce) && JsonU128(v, "tip") == Some(p.extra.tip)
      && "appId" in v && v["appId"] == Num(p.extra.appId)
  {
    hide Prepared, JsonString, Hex.ParseNumericHex, Hex.NumericHex, Hex.EncodePrefixed, Hex.DecodePrefixed,
      EncodeWireEra;
    PreparedEntries(p, names);
    Hex.Widths();
    Hex.NumericHexRoundTrip(p.extra.nonce, 8);
    Hex.NumericHexRoundTrip(p.extra.tip, 32);
    Hex.PrefixedRoundTrip(EncodeWireEra(p.extra.era));
  }

  lemma PreparedAdditional(p: Payload, names: seq<string>)
    ensures var v := Prepared(p, names);
      && JsonU32(v, "specVersion") == Some(p.additional.specVersion)
      && JsonU32(v, "transactionVersion") == Some(p.additional.txVersion)
      && JsonHexBytes(v, "genesisHash") == Some(p.additional.genesisHash)
      && JsonHexBytes(v, "blockHash") == Some(p.additional.forkHash)
  {
    hide Prepared, JsonString, Hex.ParseNumericHex, Hex.NumericHex, Hex.EncodePrefixed, Hex.DecodePrefixed;
    PreparedEntries(p, names);
    Hex.Widths();
    Hex.NumericHexRoundTrip(p.additional.specVersion, 8);
    Hex.NumericHexRoundTrip(p.additional.txVersion, 8);
    Hex.PrefixedRoundTrip(p.additional.genesisHash);
    Hex.PrefixedRoundTrip(p.additional.forkHash);
  }

  /** What the wallet reads back for an extension is the payload's own piece. */
  lemma PieceIsOwn(p: Payload, names: seq<string>, e: Extension, second: bool)
    ensures var v := Prepared(p, names);
      (if second then SecondPiece(v, e) else FirstPiece(v, e)) == Some(OwnPiece(p, e, second))
  {
    hide Prepared, JsonHexBytes, JsonU32, JsonU128, EncodeCompact, EncodeWireEra;
    if second { PreparedAdditional(p, names); } else { PreparedExtra(p, names); }
  }

  /** Whether an extension carries bytes in a pass. */
  predicate Carries(e: Extension, second: bool) {
    if second then e.SpecVersion? || e.TxVersion? || e.Genesis? || e.Mortality?
    else e.Mortality? || e.Nonce? || e.Payment? || e.AppId?
  }

  predicate AllKnown(names: seq<string>) { forall i :: 0 <= i < |names| ==> ExtensionNamed(names[i]).Some? }

  /** The byte-carrying extensions of a pass, in list order. */
  function Carriers(names: seq<string>, second: bool): seq<Extension>
    requires AllKnown(names)
  {
    if names == [] then []
    else
      var e := ExtensionNamed(names[|names| - 1]).value;
      Carriers(names[..|names| - 1], second) + if Carries(e, second) then [e] else []
  }

  function OwnPieces(p: Payload, es: seq<Extension>, second: bool): Bytes {
    if es == [] then [] else OwnPieces(p, es[..|es| - 1], second) + OwnPiece(p, es[|es| - 1], second)
  }

  lemma OwnPiecesAppend(p: Payload, es: seq<Extension>, e: Extension, second: bool)
    ensures OwnPieces(p, es + [e], second) == OwnPieces(p, es, second) + OwnPiece(p, e, second)
  {
    hide OwnPiece;
    assert (es + [e])[..|es|] == es;
  }

  /** The carriers of a longer list: those before, and the new one if it carries bytes. */
  lemma CarriersStep(names: seq<string>, i: nat, second: bool)
    requires i < |names| && AllKnown(names)
    ensures AllKnown(names[..i]) && AllKnown(names[..i + 1])
    ensures var e := ExtensionNamed(names[i]).value;
      Carriers(names[..i + 1], second) == Carriers(names[..i], second) + if Carries(e, second) then [e] else []
  {
    hide ExtensionNamed;
    assert names[..i + 1][..i] == names[..i];
  }

  /** One more name adds the same bytes to the carriers' pieces whether or not it carries any. */
  lemma OwnPiecesStep(p: Payload, names: seq<string>, i: nat, second: bool)
    requires i < |names| && AllKnown(names)
    ensures AllKnown(names[..i]) && AllKnown(names[..i + 1])
    ensures OwnPieces(p, Carriers(names[..i + 1], second), second)
         == OwnPieces(p, Carriers(names[..i], second), second) + OwnPiece(p, ExtensionNamed(names[i]).value, second)
  {
    hide ExtensionNamed, Carriers, OwnPieces, OwnPiece, Carries;
    CarriersStep(names, i, second);
    var e, es := ExtensionNamed(names[i]).value, Carriers(names[..i], second);
    if Carries(e, second) {
      OwnPiecesAppend(p, es, e, second);
    } else {
      SilentOwnPiece(p, e, second);
      assert es + [] == es && OwnPieces(p, es, second) + [] == OwnPieces(p, es, second);
    }
  }

  lemma PieceOfName(p: Payload, all: seq<string>, name: string, second: bool)
    requires ExtensionNamed(name).Some?
    ensures Piece(Prepared(p, all), name, second) == Some(OwnPiece(p, ExtensionNamed(name).value, second))
  {
    hide ExtensionNamed, FirstPiece, SecondPiece, Prepared, OwnPiece;
    PieceIsOwn(p, all, ExtensionNamed(name).value, second);
  }

  lemma NothingPassed(p: Payload, value: JsonObject, second: bool)
    ensures Pass(value, [], second) == Some(OwnPieces(p, Carriers([], second), second))
  {
  }

  /** A pass over the prepared JSON is the payload's pieces for the byte-carrying extensions, in list order. */
  lemma {:induction false} PassIsOwnPieces(p: Payload, all: seq<string>, names: seq<string>, second: bool)
    requires AllKnown(names)
    ensures Pass(Prepared(p, all), names, second) == Some(OwnPieces(p, Carriers(names, second), second))
  {
    hide ExtensionNamed, Piece, Prepared, Pass, OwnPiece, OwnPieces, Carriers;
    if names == [] {
      NothingPassed(p, Prepared(p, all), second);
    } else {
      var n := |names| - 1;
      OwnPiecesStep(p, names, n, second);
      PassIsOwnPieces(p, all, names[..n], second);
      PassStep(Prepared(p, all), names, n, second);
      PieceOfName(p, all, names[n], second);
      assert names[..n + 1] == names;
    }
  }

  lemma SilentOwnPiece(p: Payload, e: Extension, second: bool)
    requires !Carries(e, second)
    ensures OwnPiece(p, e, second) == []
  {
  }

  const FIRST_ORDER: seq<Extension> := [Mortality, Nonce, Payment, AppId]
  const SECOND_ORDER: seq<Extension> := [SpecVersion, TxVersion, Genesis, Mortality]

  /** The list keeps the byte-carrying extensions in the order the runtime encodes them. */
  predicate KeepsOrder(names: seq<string>) {
    AllKnown(names) && Carriers(names, false) == FIRST_ORDER && Carriers(names, true) == SECOND_ORDER
  }

  lemma OwnPiecesOfFour(p: Payload, a: Extension, b: Extension, c: Extension, d: Extension, second: bool)
    ensures OwnPieces(p, [a, b, c, d], second)
         == OwnPiece(p, a, second) + OwnPiece(p, b, second) + OwnPiece(p, c, second) + OwnPiece(p, d, second)
  {
    hide OwnPiece;
    assert [a, b, c, d][..3] == [a, b, c] && [a, b, c][..2] == [a, b] && [a, b][..1] == [a] && [a][..0] == [];
    assert OwnPieces(p, [a], second) == OwnPiece(p, a, second);
    assert OwnPieces(p, [a, b], second) == OwnPiece(p, a, second) + OwnPiece(p, b, second);
    assert OwnPieces(p, [a, b, c], second) == OwnPiece(p, a, second) + OwnPiece(p, b, second) + OwnPiece(p, c, second);
  }

  lemma NamesOfStrs(names: seq<string>)
    ensures Names(Strs(names)) == Some(names)
  {
    if names == [] {
    } else {
      var n := |names| - 1;
      NamesOfStrs(names[..n]);
      assert Strs(names)[..n] == Strs(names[..n]) && names[..n] + [names[n]] == names;
    }
  }

  /**
   For every payload and every extension list that keeps the order of the byte-carrying extensions,
   the wallet's two passes give exactly the bytes the payload is signed over.
   */
  lemma {:induction false} WalletSignsSameBytes(p: Payload, names: seq<string>)
    requires KeepsOrder(names)
    ensures WalletBytes(Prepared(p, names)) == Some(SigningBytes(p))
  {
    hide ExtensionNamed, Pass, Carriers, Names, Hex.EncodePrefixed, Hex.DecodePrefixed, OwnPieces;
    NamesOfStrs(names);
    Hex.PrefixedRoundTrip(EncodeCall(p.call));
    PassIsOwnPieces(p, names, names, false);
    PassIsOwnPieces(p, names, names, true);
    OwnPiecesOfFour(p, Mortality, Nonce, Payment, AppId, false);
    OwnPiecesOfFour(p, SpecVersion, TxVersion, Genesis, Mortality, true);
    assert EncodeExtra(p.extra) == OwnPieces(p, FIRST_ORDER, false);
    assert EncodeAdditional(p.additional) == OwnPieces(p, SECOND_ORDER, true);
  }

  // ---------------------------------------------------------------- no other list will do

  /** A payload whose pieces are all told apart by the bytes they are made of. */
  function Marker(): Payload {
    Payload(ExtrinsicCall(0, 0, []), ExtrinsicExtra(Immortal, 1, 2, 3),
            Additional(0x0505_0505, 0x0606_0606, seq(32, i => 7), seq(32, i => 9)))
  }

  function MarkerByte(e: Extension, second: bool): Byte {
    if second then
      match e case SpecVersion => 5 case TxVersion => 6 case Genesis => 7 case _ => 9
    else
      match e case Mortality => 0 case Nonce => 4 case Payment => 8 case _ => 12
  }

  function MarkerLength(e: Extension, second: bool): nat {
    if !second then 1 else if e.SpecVersion? || e.TxVersion? then 4 else 32
  }

  lemma MarkerVersions()
    ensures LE(0x0505_0505, 4) == [5, 5, 5, 5] && LE(0x0606_0606, 4) == [6, 6, 6, 6]
  {
    assert LE(0x0505, 2) == [5] + LE(5, 1) && LE(0x05_0505, 3) == [5] + LE(0x0505, 2);
    assert LE(0x0606, 2) == [6] + LE(6, 1) && LE(0x06_0606, 3) == [6] + LE(0x0606, 2);
  }

  lemma MarkerPiece(e: Extension, second: bool)
    requires Carries(e, second)
    ensures OwnPiece(Marker(), e, second) == seq(MarkerLength(e, second), i => MarkerByte(e, second))
  {
    hide LE;
    MarkerVersions();
  }

  predicate AllCarry(es: seq<Extension>, second: bool) { forall i :: 0 <= i < |es| ==> Carries(es[i], second) }

  lemma CarriersCarry(names: seq<string>, second: bool)
    requires AllKnown(names)
    ensures AllCarry(Carriers(names, second), second)
  {
    hide ExtensionNamed, Carries;
    if names == [] {
    } else {
      CarriersCarry(names[..|names| - 1], second);
    }
  }

  /** In the first pass every carrier is its one marker byte. */
  lemma FirstPassBytes(es: seq<Extension>)
    requires AllCarry(es, false)
    ensures var b := OwnPieces(Marker(), es, false);
      |b| == |es| && forall i :: 0 <= i < |es| ==> b[i] == MarkerByte(es[i], false)
  {
    hide OwnPiece, Marker, Carries, MarkerByte;
    if es == [] {
    } else {
      FirstPassBytes(es[..|es| - 1]);
      MarkerPiece(es[|es| - 1], false);
    }
  }

  /** The second pass never writes a byte of the first. */
  lemma SecondPassBytes(es: seq<Extension>)
    requires AllCarry(es, true)
    ensures forall x :: x in OwnPieces(Marker(), es, true) ==> x == 5 || x == 6 || x == 7 || x == 9
  {
    hide OwnPiece, Marker, Carries;
    if es == [] {
    } else {
      SecondPassBytes(es[..|es| - 1]);
      MarkerPiece(es[|es| - 1], true);
    }
  }

  /** The last byte written tells which extension wrote it, and so how many bytes to take off. */
  lemma LastCarrier(es: seq<Extension>, before: Bytes, e: Extension)
    requires AllCarry(es, true) && Carries(e, true)
    requires OwnPieces(Marker(), es, true) == before + OwnPiece(Marker(), e, true)
    ensures es != [] && es[|es| - 1] == e && OwnPieces(Marker(), es[..|es| - 1], true) == before
  {
    hide OwnPiece, Marker;
    MarkerPiece(e, true);
    var all := before + OwnPiece(Marker(), e, true);
    assert all[|all| - 1] == MarkerByte(e, true);
    if es != [] {
      var last := es[|es| - 1];
      MarkerPiece(last, true);
      var init := OwnPieces(Marker(), es[..|es| - 1], true);
      assert all == init + OwnPiece(Marker(), last, true);
      assert all[|all| - 1] == MarkerByte(last, true);
      assert last == e;
      assert init == all[..|init|] && before == all[..|before|];
    }
  }

  lemma SecondPassParse(es: seq<Extension>)
    requires AllCarry(es, true) && OwnPieces(Marker(), es, true) == OwnPieces(Marker(), SECOND_ORDER, true)
    ensures es == SECOND_ORDER
  {
    hide OwnPiece, Marker, OwnPieces;
    var p := Marker();
    OwnPiecesOfFour(p, SpecVersion, TxVersion, Genesis, Mortality, true);
    var a, b, c := OwnPiece(p, SpecVersion, true), OwnPiece(p, TxVersion, true), OwnPiece(p, Genesis, true);
    LastCarrier(es, a + b + c, Mortality);
    var es3 := es[..|es| - 1];
    LastCarrier(es3, a + b, Genesis);
    var es2 := es3[..|es3| - 1];
    LastCarrier(es2, a, TxVersion);
    var es1 := es2[..|es2| - 1];
    LastCarrier(es1, [], SpecVersion);
    NothingWritten(es1[..|es1| - 1]);
  }

  lemma NothingWritten(es: seq<Extension>)
    requires AllCarry(es, true) && OwnPieces(Marker(), es, true) == []
    ensures es == []
  {
    hide OwnPiece, Marker;
    if es != [] { MarkerPiece(es[|es| - 1], true); }
  }

  /** Where the first part of a concatenation ends early, the second part starts inside the other first part. */
  lemma Overlap(first: Bytes, second: Bytes, first': Bytes, second': Bytes)
    requires first + second == first' + second' && |first| < |first'|
    ensures exists x :: x in first' && x in second
  {
    assert first'[|first|] == (first' + second')[|first|] == (first + second)[|first|] == second[0];
    assert first'[|first|] in first' && second[0] in second;
  }

  /** Two concatenations with the same sides are told apart where first-pass bytes stop. */
  lemma SplitPasses(first: Bytes, second: Bytes, first': Bytes, second': Bytes)
    requires first + second == first' + second'
    requires forall x :: x in first' ==> x !in second
    requires forall x :: x in first ==> x !in second'
    ensures first == first' && second == second'
  {
    if |first| < |first'| { Overlap(first, second, first', second'); }
    if |first'| < |first| { Overlap(first', second', first, second); }
    assert first == (first + second)[..|first|] && first' == (first' + second')[..|first'|];
    assert second == (first + second)[|first|..] && second' == (first' + second')[|first'|..];
  }

  /**
   The wallet signs the payload's own bytes for every payload exactly when the extension list keeps
   the byte-carrying extensions, each once, in the runtime's order.
   */
  lemma {:induction false} WalletAgreesIffOrderKept(names: seq<string>)
    ensures (forall p :: WalletBytes(Prepared(p, names)) == Some(SigningBytes(p))) <==> KeepsOrder(names)
  {
    if KeepsOrder(names) {
      forall p ensures WalletBytes(Prepared(p, names)) == Some(SigningBytes(p)) { WalletSignsSameBytes(p, names); }
    } else if WalletBytes(Prepared(Marker(), names)) == Some(SigningBytes(Marker())) {
      MarkerTellsOrder(names);
    }
  }

  lemma MarkerTellsOrder(names: seq<string>)
    requires WalletBytes(Prepared(Marker(), names)) == Some(SigningBytes(Marker()))
    ensures KeepsOrder(names)
  {
    hide ExtensionNamed, Pass, Carriers, Names, Hex.EncodePrefixed, Hex.DecodePrefixed, OwnPieces, Marker, OwnPiece,
      SigningBytes;
    var p := Marker();
    NamesOfStrs(names);
    NamesKnown(Prepared(p, names), names);
    Hex.PrefixedRoundTrip(EncodeCall(p.call));
    PassIsOwnPieces(p, names, names, false);
    PassIsOwnPieces(p, names, names, true);
    OwnSigningBytes(p);
    CarriersCarry(names, false);
    CarriersCarry(names, true);
    DropSame(EncodeCall(p.call), OwnPieces(p, Carriers(names, false), false), OwnPieces(p, Carriers(names, true), true),
             OwnPieces(p, FIRST_ORDER, false), OwnPieces(p, SECOND_ORDER, true));
    MarkerBytesTellOrder(Carriers(names, false), Carriers(names, true));
  }

  /** From the marker's bytes the carriers of both passes can be read off. */
  lemma MarkerBytesTellOrder(fs: seq<Extension>, ss: seq<Extension>)
    requires AllCarry(fs, false) && AllCarry(ss, true)
    requires OwnPieces(Marker(), fs, false) + OwnPieces(Marker(), ss, true)
          == OwnPieces(Marker(), FIRST_ORDER, false) + OwnPieces(Marker(), SECOND_ORDER, true)
    ensures fs == FIRST_ORDER && ss == SECOND_ORDER
  {
    hide OwnPieces, Marker, OwnPiece;
    var p := Marker();
    FirstPassBytes(fs);
    FirstPassBytes(FIRST_ORDER);
    SecondPassBytes(ss);
    SecondPassBytes(SECOND_ORDER);
    SplitPasses(OwnPieces(p, fs, false), OwnPieces(p, ss, true),
                OwnPieces(p, FIRST_ORDER, false), OwnPieces(p, SECOND_ORDER, true));
    SecondPassParse(ss);
    forall i | 0 <= i < |fs| ensures fs[i] == FIRST_ORDER[i] {
      assert MarkerByte(fs[i], false) == MarkerByte(FIRST_ORDER[i], false);
      assert Carries(fs[i], false) && Carries(FIRST_ORDER[i], false);
    }
  }

  lemma DropSame(call: Bytes, a: Bytes, b: Bytes, a': Bytes, b': Bytes)
    requires call + a + b == call + a' + b'
    ensures a + b == a' + b'
  {
    assert a + b == (call + a + b)[|call|..];
    assert a' + b' == (call + a' + b')[|call|..];
  }

  lemma OwnSigningBytes(p: Payload)
    ensures SigningBytes(p) == EncodeCall(p.call) + OwnPieces(p, FIRST_ORDER, false) + OwnPieces(p, SECOND_ORDER, true)
  {
    hide EncodeCompact, EncodeWireEra, OwnPieces;
    OwnPiecesOfFour(p, Mortality, Nonce, Payment, AppId, false);
    OwnPiecesOfFour(p, SpecVersion, TxVersion, Genesis, Mortality, true);
    assert EncodeExtra(p.extra) == OwnPieces(p, FIRST_ORDER, false);
    assert EncodeAdditional(p.additional) == OwnPieces(p, SECOND_ORDER, true);
  }

  /** An extension the wallet does not know stops it. */
  lemma NamesKnown(value: JsonObject, names: seq<string>)
    requires ExtensionNames(value) == Some(names) && WalletBytes(value).Some?
    ensures AllKnown(names)
  {
    hide ExtensionNamed, ExtensionNames;
    forall i | 0 <= i < |names| ensures ExtensionNamed(names[i]).Some? {
      if ExtensionNamed(names[i]).None? { PassFails(value, names, i, false); }
    }
  }

  // The list the client prepares.
  const PREPARED_EXTENSIONS: seq<string> := [
    "CheckNonZeroSender", "CheckSpecVersion", "CheckTxVersion", "CheckGenesis", "CheckMortality",
    "CheckNonce", "CheckWeight", "ChargeTransactionPayment", "CheckAppId"]

  /** The self-check of `prepare` never fails: the list it sends keeps the order. */
  lemma {:induction false} PreparedSelfCheckPasses(p: Payload)
    ensures WalletBytes(Prepared(p, PREPARED_EXTENSIONS)) == Some(SigningBytes(p))
  {
    PreparedKeepsOrder();
    WalletSignsSameBytes(p, PREPARED_EXTENSIONS);
  }

  lemma PreparedKinds()
    ensures |PREPARED_EXTENSIONS| == 9
    ensures PREPARED_EXTENSIONS[0] == "CheckNonZeroSender" && PREPARED_EXTENSIONS[1] == "CheckSpecVersion"
    ensures PREPARED_EXTENSIONS[2] == "CheckTxVersion" && PREPARED_EXTENSIONS[3] == "CheckGenesis"
    ensures PREPARED_EXTENSIONS[4] == "CheckMortality" && PREPARED_EXTENSIONS[5] == "CheckNonce"
    ensures PREPARED_EXTENSIONS[6] == "CheckWeight" && PREPARED_EXTENSIONS[7] == "ChargeTransactionPayment"
    ensures PREPARED_EXTENSIONS[8] == "CheckAppId"
    ensures ExtensionNamed(PREPARED_EXTENSIONS[0]) == ExtensionNamed(PREPARED_EXTENSIONS[6]) == Some(Silent)
    ensures ExtensionNamed(PREPARED_EXTENSIONS[1]) == Some(SpecVersion)
    ensures ExtensionNamed(PREPARED_EXTENSIONS[2]) == Some(TxVersion)
    ensures ExtensionNamed(PREPARED_EXTENSIONS[3]) == Some(Genesis)
    ensures ExtensionNamed(PREPARED_EXTENSIONS[4]) == Some(Mortality)
    ensures ExtensionNamed(PREPARED_EXTENSIONS[5]) == Some(Nonce)
    ensures ExtensionNamed(PREPARED_EXTENSIONS[7]) == Some(Payment)
    ensures ExtensionNamed(PREPARED_EXTENSIONS[8]) == Some(AppId)
  {
  }

  lemma NoCarriers(second: bool)
    ensures Carriers([], second) == []
  {
  }

  /** Up to and including "CheckMortality". */
  lemma PreparedCarriersFive(second: bool)
    requires AllKnown(PREPARED_EXTENSIONS)
    ensures AllKnown(PREPARED_EXTENSIONS[..5])
    ensures Carriers(PREPARED_EXTENSIONS[..5], second) == if second then SECOND_ORDER else [Mortality]
  {
    hide ExtensionNamed, AllKnown, Carriers;
    PreparedKinds();
    NoCarriers(second);
    var names := PREPARED_EXTENSIONS;
    assert names[..0] == [];
    CarriersStep(names, 0, second);
    CarriersStep(names, 1, second);
    CarriersStep(names, 2, second);
    CarriersStep(names, 3, second);
    CarriersStep(names, 4, second);
  }

  lemma PreparedCarriers(second: bool)
    requires AllKnown(PREPARED_EXTENSIONS)
    ensures Carriers(PREPARED_EXTENSIONS, second) == if second then SECOND_ORDER else FIRST_ORDER
  {
    hide ExtensionNamed, AllKnown, Carriers;
    PreparedKinds();
    PreparedCarriersFive(second);
    var names := PREPARED_EXTENSIONS;
    CarriersStep(names, 5, second);
    CarriersStep(names, 6, second);
    CarriersStep(names, 7, second);
    CarriersStep(names, 8, second);
    assert names[..9] == names;
  }

  lemma PreparedKeepsOrder()
    ensures KeepsOrder(PREPARED_EXTENSIONS)
  {
    hide ExtensionNamed;
    PreparedKinds();
    PreparedCarriers(false);
    PreparedCarriers(true);
  }
}
