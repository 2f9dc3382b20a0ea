/**
 * Compressed ledger keys (xdr/ledger_key.go, xdr/trust_line_asset.go, xdr/account_id.go,
 * xdr/claimable_balance_id.go): the byte strings under which the checkpoint reader remembers entries.
 */
module LedgerKeys {
  import opened Common

  type Byte = x: int | 0 <= x < 256
  type Bytes = seq<Byte>

  /** An ed25519 account, the only kind there is; its public key has 32 bytes. */
  datatype AccountId = AccountId(ed25519: Bytes)

  datatype TrustLineAsset =
    | Native
    | AlphaNum4(code4: Bytes, issuer4: AccountId)
    | AlphaNum12(code12: Bytes, issuer12: AccountId)
    | PoolShare(pool: Bytes)

  datatype ScAddress = ScAccount(account: AccountId) | ScContract(contract: Bytes)

  /** A contract value, identified with its canonical XDR form. */
  datatype ScVal = ScVal(xdr: Bytes)

  datatype LedgerKey =
    | Account(accountId: AccountId)
    | TrustLine(holder: AccountId, asset: TrustLineAsset)
    | Offer(sellerId: AccountId, offerId: int)
    | Data(owner: AccountId, dataName: Bytes)
    | ClaimableBalance(balanceV0: Bytes)
    | LiquidityPool(poolId: Bytes)
    | ContractData(address: ScAddress, key: ScVal, durability: int)
    | ContractCode(codeHash: Bytes)
    | ConfigSetting(settingId: int)
    | Ttl(keyHash: Bytes)

  predicate ValidAccount(a: AccountId) {
    |a.ed25519| == 32
  }

  predicate ValidAsset(a: TrustLineAsset) {
    match a
    case Native => true
    case AlphaNum4(code, issuer) => |code| == 4 && ValidAccount(issuer)
    case AlphaNum12(code, issuer) => |code| == 12 && ValidAccount(issuer)
    case PoolShare(pool) => |pool| == 32
  }

  predicate ValidAddress(a: ScAddress) {
    match a
    case ScAccount(account) => ValidAccount(account)
    case ScContract(contract) => |contract| == 32
  }

  /** What the XDR types guarantee: array sizes and integer ranges. */
  predicate ValidKey(k: LedgerKey) {
    match k
    case Account(a) => ValidAccount(a)
    case TrustLine(a, asset) => ValidAccount(a) && ValidAsset(asset)
    case Offer(a, id) => ValidAccount(a) && -MAX_INT64 - 1 <= id <= MAX_INT64
    case Data(a, name) => ValidAccount(a) && |name| <= 64
    case ClaimableBalance(b) => |b| == 32
    case LiquidityPool(p) => |p| == 32
    case ContractData(address, _, durability) => ValidAddress(address) && 0 <= durability <= 1
    case ContractCode(h) => |h| == 32
    case ConfigSetting(id) => 0 <= id <= MAX_INT32
    case Ttl(h) => |h| == 32
  }

  // ---------- trimming ----------

  /** b without its trailing zero bytes. */
  function Trimmed(b: Bytes): (r: Bytes)
    ensures |r| <= |b| && r == b[..|r|]
    ensures forall i :: |r| <= i < |b| ==> b[i] == 0
    ensures r != [] ==> r[|r|-1] != 0
  {
    if b == [] || b[|b|-1] != 0 then b else Trimmed(b[..|b|-1])
  }

  method TrimRightZeros(b: Bytes) returns (r: Bytes)
    ensures r == Trimmed(b)
  {
    if |b| == 0 {
      return b;
    }
    var i := |b|;
    assert b[..|b|] == b;
    while i > 0
      invariant 0 <= i <= |b|
      invariant Trimmed(b) == Trimmed(b[..i])
    {
      assert b[..i][..i-1] == b[..i-1];
      if b[i - 1] != 0 {
        break;
      }
      i := i - 1;
    }
    r := b[..i];
  }

  /** Trimming forgets nothing about a string of known length. */
  lemma TrimmedInjective(a: Bytes, b: Bytes)
    requires |a| == |b| && Trimmed(a) == Trimmed(b)
    ensures a == b
  {
    forall i | 0 <= i < |a|
      ensures a[i] == b[i]
    {
      if i < |Trimmed(a)| {
        assert Trimmed(a)[i] == a[i] && Trimmed(b)[i] == b[i];
      }
    }
  }

  // ---------- the encoding ----------

  /** A big-endian word of n bytes, in two's complement. */
  function BigEndian(x: int, n: nat): (r: Bytes)
    ensures |r| == n
    decreases n
  {
    if n == 0 then [] else BigEndian(x / 256, n - 1) + [x % 256]
  }

  function Power256(n: nat): (r: int)
    ensures r > 0
  {
    if n == 0 then 1 else 256 * Power256(n - 1)
  }

  /** Words of n bytes tell apart any two integers closer than 256 to the n. */
  lemma {:induction false} BigEndianInjective(x: int, y: int, n: nat)
    requires x <= y < x + Power256(n) && BigEndian(x, n) == BigEndian(y, n)
    ensures x == y
    decreases n
  {
    if n > 0 {
      var a, b := BigEndian(x / 256, n - 1), BigEndian(y / 256, n - 1);
      assert (a + [x % 256])[..n-1] == a && (b + [y % 256])[..n-1] == b;
      assert (a + [x % 256])[n-1] == x % 256 && (b + [y % 256])[n-1] == y % 256;
      BigEndianInjective(x / 256, y / 256, n - 1);
    }
  }

  function CompressAccount(a: AccountId): Bytes {
    [0] + a.ed25519
  }

  function CompressAsset(a: TrustLineAsset): Bytes {
    match a
    case Native => [0]
    case AlphaNum4(code, issuer) => [1] + Trimmed(code) + CompressAccount(issuer)
    case AlphaNum12(code, issuer) => [2] + Trimmed(code) + CompressAccount(issuer)
    case PoolShare(pool) => [3] + pool
  }

  /** The standard XDR form of a contract address. */
  function MarshalAddress(a: ScAddress): Bytes {
    match a
    case ScAccount(account) => BigEndian(0, 4) + BigEndian(0, 4) + account.ed25519
    case ScContract(contract) => BigEndian(1, 4) + contract
  }

  /** The byte that says what kind of key follows. */
  function Tag(k: LedgerKey): Byte {
    match k
    case Account(_) => 0
    case TrustLine(_, _) => 1
    case Offer(_, _) => 2
    case Data(_, _) => 3
    case ClaimableBalance(_) => 4
    case LiquidityPool(_) => 5
    case ContractData(_, _, _) => 6
    case ContractCode(_) => 7
    case ConfigSetting(_) => 8
    case Ttl(_) => 9
  }

  /** The rest: one byte for every discriminant, no padding and no length prefixes. */
  function Body(k: LedgerKey): Bytes
    requires ValidKey(k)
  {
    match k
    case Account(a) => CompressAccount(a)
    case TrustLine(a, asset) => CompressAccount(a) + CompressAsset(asset)
    case Offer(_, id) => BigEndian(id, 8)
    case Data(a, name) => CompressAccount(a) + Trimmed(name)
    case ClaimableBalance(b) => [0] + b
    case LiquidityPool(p) => p
    case ContractData(address, key, durability) => MarshalAddress(address) + key.xdr + [durability]
    case ContractCode(h) => h
    case ConfigSetting(id) => BigEndian(id, 4)
    case Ttl(h) => h
  }

  function Compress(k: LedgerKey): Bytes
    requires ValidKey(k)
  {
    [Tag(k)] + Body(k)
  }

  /** Keys of one kind. */
  predicate SameKind(k: LedgerKey, l: LedgerKey) {
    match k
    case Account(_) => l.Account?
    case TrustLine(_, _) => l.TrustLine?
    case Offer(_, _) => l.Offer?
    case Data(_, _) => l.Data?
    case ClaimableBalance(_) => l.ClaimableBalance?
    case LiquidityPool(_) => l.LiquidityPool?
    case ContractData(_, _, _) => l.ContractData?
    case ContractCode(_) => l.ContractCode?
    case ConfigSetting(_) => l.ConfigSetting?
    case Ttl(_) => l.Ttl?
  }

  predicate SameAssetKind(a: TrustLineAsset, b: TrustLineAsset) {
    match a
    case Native => b.Native?
    case AlphaNum4(_, _) => b.AlphaNum4?
    case AlphaNum12(_, _) => b.AlphaNum12?
    case PoolShare(_) => b.PoolShare?
  }

  /** The first byte tells the kind of a key, and that of an asset the kind of the asset. */
  lemma FirstByteDecides(k: LedgerKey, l: LedgerKey, a: TrustLineAsset, b: TrustLineAsset)
    requires ValidKey(k) && ValidKey(l)
    ensures Compress(k)[0] == Compress(l)[0] <==> SameKind(k, l)
    ensures CompressAsset(a) != [] && CompressAsset(b) != []
    ensures CompressAsset(a)[0] == CompressAsset(b)[0] <==> SameAssetKind(a, b)
  {
    hide Body, Trimmed, CompressAccount;
  }

  /** What the compressed form keeps of a key: not an offer's seller, and no trailing zeros of a data name. */
  function Identity(k: LedgerKey): LedgerKey {
    match k
    case Offer(_, id) => Offer(AccountId([]), id)
    case Data(a, name) => Data(a, Trimmed(name))
    case _ => k
  }

  // ---------- injectivity ----------

  /** Equal concatenations whose first parts have equal length are equal part by part. */
  lemma SplitFront(a: Bytes, b: Bytes, c: Bytes, d: Bytes)
    requires a + b == c + d && |a| == |c|
    ensures a == c && b == d
  {
    assert a == (a + b)[..|a|] && c == (c + d)[..|c|];
    assert b == (a + b)[|a|..] && d == (c + d)[|c|..];
  }

  /** The same from the back. */
  lemma SplitBack(a: Bytes, b: Bytes, c: Bytes, d: Bytes)
    requires a + b == c + d && |b| == |d|
    ensures a == c && b == d
  {
    assert |a| == |c|;
    SplitFront(a, b, c, d);
  }

  lemma CompressAccountInjective(a: AccountId, b: AccountId)
    requires CompressAccount(a) == CompressAccount(b)
    ensures a == b
  {
    SplitFront([0], a.ed25519, [0], b.ed25519);
  }

  /** The issuer has a fixed size and stands last, so the trimmed code before it is determined. */
  lemma CodeAndIssuer(tag: Byte, code: Bytes, issuer: AccountId, code': Bytes, issuer': AccountId)
    requires |code| == |code'| && ValidAccount(issuer) && ValidAccount(issuer')
    requires [tag] + Trimmed(code) + CompressAccount(issuer) == [tag] + Trimmed(code') + CompressAccount(issuer')
    ensures code == code' && issuer == issuer'
  {
    SplitBack([tag] + Trimmed(code), CompressAccount(issuer), [tag] + Trimmed(code'), CompressAccount(issuer'));
    SplitFront([tag], Trimmed(code), [tag], Trimmed(code'));
    TrimmedInjective(code, code');
    CompressAccountInjective(issuer, issuer');
  }

  lemma CompressAssetInjective(a: TrustLineAsset, b: TrustLineAsset)
    requires ValidAsset(a) && ValidAsset(b) && CompressAsset(a) == CompressAsset(b)
    ensures a == b
  {
    assert CompressAsset(a)[0] == CompressAsset(b)[0];
    match a
    case Native =>
    case AlphaNum4(code, issuer) => CodeAndIssuer(1, code, issuer, b.code4, b.issuer4);
    case AlphaNum12(code, issuer) => CodeAndIssuer(2, code, issuer, b.code12, b.issuer12);
    case PoolShare(pool) => SplitFront([3], pool, [3], b.pool);
  }

  lemma WordTags()
    ensures BigEndian(0, 4) == [0, 0, 0, 0] && BigEndian(1, 4) == [0, 0, 0, 1]
  {
    assert BigEndian(0, 1) == [0] && BigEndian(0, 2) == [0, 0] && BigEndian(0, 3) == [0, 0, 0];
  }

  /** The address says by its own first word how long it is. */
  lemma AddressPrefixFree(a: ScAddress, rest: Bytes, b: ScAddress, rest': Bytes)
    requires ValidAddress(a) && ValidAddress(b) && MarshalAddress(a) + rest == MarshalAddress(b) + rest'
    ensures a == b && rest == rest'
  {
    WordTags();
    assert (MarshalAddress(a) + rest)[3] == MarshalAddress(a)[3];
    assert (MarshalAddress(b) + rest')[3] == MarshalAddress(b)[3];
    SplitFront(MarshalAddress(a), rest, MarshalAddress(b), rest');
    match a {
      case ScAccount(account) =>
        SplitFront(BigEndian(0, 4) + BigEndian(0, 4), account.ed25519, BigEndian(0, 4) + BigEndian(0, 4),
          b.account.ed25519);
      case ScContract(contract) =>
        SplitFront(BigEndian(1, 4), contract, BigEndian(1, 4), b.contract);
    }
  }

  lemma ContractDataInjective(a: ScAddress, key: ScVal, d: Byte, a': ScAddress, key': ScVal, d': Byte)
    requires ValidAddress(a) && ValidAddress(a')
    requires MarshalAddress(a) + key.xdr + [d] == MarshalAddress(a') + key'.xdr + [d']
    ensures a == a' && key == key' && d == d'
  {
    SplitBack(MarshalAddress(a) + key.xdr, [d], MarshalAddress(a') + key'.xdr, [d']);
    AddressPrefixFree(a, key.xdr, a', key'.xdr);
  }

  lemma OfferIdInjective(x: int, y: int)
    requires -MAX_INT64 - 1 <= x <= MAX_INT64 && -MAX_INT64 - 1 <= y <= MAX_INT64 && BigEndian(x, 8) == BigEndian(y, 8)
    ensures x == y
  {
    assert Power256(4) == TWO_32;
    assert Power256(8) == TWO_64;
    BigEndianInjective(Min(x, y), Max(x, y), 8);
  }

  lemma SettingIdInjective(x: int, y: int)
    requires 0 <= x <= MAX_INT32 && 0 <= y <= MAX_INT32 && BigEndian(x, 4) == BigEndian(y, 4)
    ensures x == y
  {
    assert Power256(4) == TWO_32;
    BigEndianInjective(Min(x, y), Max(x, y), 4);
  }

  /** Two keys share their compressed bytes exactly when they agree on everything the form keeps. */
  lemma CompressIdentifies(a: LedgerKey, b: LedgerKey)
    requires ValidKey(a) && ValidKey(b)
    ensures Compress(a) == Compress(b) <==> Identity(a) == Identity(b)
  {
    if Compress(a) == Compress(b) {
      SplitFront([Tag(a)], Body(a), [Tag(b)], Body(b));
      BodiesIdentify(a, b);
    }
  }

  lemma BodiesIdentify(a: LedgerKey, b: LedgerKey)
    requires ValidKey(a) && ValidKey(b) && Tag(a) == Tag(b) && Body(a) == Body(b)
    ensures Identity(a) == Identity(b)
  {
    match a
    case Account(x) => CompressAccountInjective(x, b.accountId);
    case TrustLine(x, asset) =>
      SplitFront(CompressAccount(x), CompressAsset(asset), CompressAccount(b.holder), CompressAsset(b.asset));
      CompressAccountInjective(x, b.holder);
      CompressAssetInjective(asset, b.asset);
    case Offer(_, id) => OfferIdInjective(id, b.offerId);
    case Data(x, name) =>
      SplitFront(CompressAccount(x), Trimmed(name), CompressAccount(b.owner), Trimmed(b.dataName));
      CompressAccountInjective(x, b.owner);
    case ClaimableBalance(x) => SplitFront([0], x, [0], b.balanceV0);
    case LiquidityPool(_) =>
    case ContractData(address, key, d) => ContractDataInjective(address, key, d, b.address, b.key, b.durability);
    case ContractCode(_) =>
    case ConfigSetting(id) => SettingIdInjective(id, b.settingId);
    case Ttl(_) =>
  }

  /** A key whose data name, if it has one, does not end in a zero byte. */
  predicate Canonical(k: LedgerKey) {
    ValidKey(k) && (k.Data? ==> Trimmed(k.dataName) == k.dataName)
  }

  /** The ledger's own rule: an offer id belongs to one seller. */
  ghost predicate OneSellerPerOffer(a: LedgerKey, b: LedgerKey) {
    a.Offer? && b.Offer? && a.offerId == b.offerId ==> a.sellerId == b.sellerId
  }

  /** On canonical keys of one ledger the compressed form is injective. */
  lemma CompressInjective(a: LedgerKey, b: LedgerKey)
    requires Canonical(a) && Canonical(b) && OneSellerPerOffer(a, b)
    ensures Compress(a) == Compress(b) <==> a == b
  {
    CompressIdentifies(a, b);
  }

  /** Without that restriction it is not: a data name and the same name followed by a zero byte collide. */
  lemma TrailingZeroCollides(owner: AccountId, name: Bytes)
    requires ValidAccount(owner) && |name| < 64
    ensures Compress(Data(owner, name)) == Compress(Data(owner, name + [0]))
    ensures Data(owner, name) != Data(owner, name + [0])
  {
    assert (name + [0])[..|name|] == name;
    assert Trimmed(name + [0]) == Trimmed(name);
    assert |name + [0]| != |name|;
  }

  // ---------- the encoder ----------

  /** The buffer that keys are written to, one after another. */
  class EncodingBuffer {
    var buf: Bytes

    constructor ()
      ensures buf == []
    {
      buf := [];
    }

    method AccountIdCompressEncodeTo(a: AccountId)
      modifies this
      ensures buf == old(buf) + CompressAccount(a)
    {
      buf := buf + [0];
      buf := buf + a.ed25519;
    }

    /** Writes a tag byte, a code without its trailing zeros and an issuer. */
    method CodeAndIssuerEncodeTo(tag: Byte, code: Bytes, issuer: AccountId)
      modifies this
      ensures buf == old(buf) + ([tag] + Trimmed(code) + CompressAccount(issuer))
    {
      hide CompressAccount, Trimmed;
      buf := buf + [tag];
      var trimmed := TrimRightZeros(code);
      buf := buf + trimmed;
      AccountIdCompressEncodeTo(issuer);
      Associative(old(buf), [tag], trimmed, CompressAccount(issuer));
    }

    method AssetTrustlineCompressEncodeTo(a: TrustLineAsset)
      modifies this
      ensures buf == old(buf) + CompressAsset(a)
    {
      hide CompressAccount, Trimmed;
      match a {
        case Native => buf := buf + [0];
        case AlphaNum4(code, issuer) => CodeAndIssuerEncodeTo(1, code, issuer);
        case AlphaNum12(code, issuer) => CodeAndIssuerEncodeTo(2, code, issuer);
        case PoolShare(pool) =>
          buf := buf + [3];
          buf := buf + pool;
      }
    }

    method LedgerKeyCompressEncodeTo(k: LedgerKey)
      requires ValidKey(k)
      modifies this
      ensures buf == old(buf) + Compress(k)
    {
      hide Body, Tag, ValidKey;
      buf := buf + [Tag(k)];
      BodyEncodeTo(k);
      assert old(buf) + [Tag(k)] + Body(k) == old(buf) + ([Tag(k)] + Body(k));
    }

    method BodyEncodeTo(k: LedgerKey)
      requires ValidKey(k)
      modifies this
      ensures buf == old(buf) + Body(k)
    {
      hide CompressAccount, CompressAsset, Trimmed, MarshalAddress, BigEndian;
      match k {
        case Account(a) => AccountIdCompressEncodeTo(a);
        case TrustLine(a, asset) =>
          AccountIdCompressEncodeTo(a);
          AssetTrustlineCompressEncodeTo(asset);
        case Offer(_, id) => buf := buf + BigEndian(id, 8);
        case Data(a, name) =>
          AccountIdCompressEncodeTo(a);
          var trimmed := TrimRightZeros(name);
          buf := buf + trimmed;
        case ClaimableBalance(b) =>
          buf := buf + [0];
          buf := buf + b;
        case LiquidityPool(p) => buf := buf + p;
        case ContractData(address, key, durability) =>
          buf := buf + MarshalAddress(address);
          buf := buf + key.xdr;
          buf := buf + [durability];
          Associative(old(buf), MarshalAddress(address), key.xdr, [durability]);
        case ContractCode(h) => buf := buf + h;
        case ConfigSetting(id) => buf := buf + BigEndian(id, 4);
        case Ttl(h) => buf := buf + h;
      }
    }

    /** Encodes one key into the emptied buffer. */
    method LedgerKeyUnsafeMarshalBinaryCompress(k: LedgerKey) returns (r: Bytes)
      requires ValidKey(k)
      modifies this
      ensures r == buf == Compress(k)
    {
      buf := [];
      LedgerKeyCompressEncodeTo(k);
      r := buf;
    }
  }

  lemma Associative(a: Bytes, b: Bytes, c: Bytes, d: Bytes)
    ensures a + b + c + d == a + (b + c + d)
  {
  }
}
