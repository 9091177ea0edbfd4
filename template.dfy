/** The RSA key-template builder of `src/helper.ts`: `createTemplate`, and the
    attribute assignment of `importRSAPublicKey` and `importRSAPrivateKey`. */
module KeyTemplate {

  import opened Wrappers
  import opened Bytes
  import IntCodec

  datatype ObjectClass = PrivateKeyClass | PublicKeyClass

  datatype KeyType = Rsa

  /** The attributes `createTemplate` sets on the private key, and the RSA components
      `importRSAPrivateKey` adds (absent until then). */
  // The `label` attribute is `keyLabel` here (`label` is a Dafny keyword).
  datatype PrivateKeyTemplate = PrivateKeyTemplate(
    token: bool, objectClass: ObjectClass, keyType: KeyType, isPrivate: bool,
    keyLabel: string, id: seq<Byte>, extractable: bool, derive: bool,
    sign: bool, decrypt: bool, unwrap: bool,
    publicExponent: Option<seq<Byte>>, modulus: Option<seq<Byte>>,
    privateExponent: Option<seq<Byte>>, prime1: Option<seq<Byte>>, prime2: Option<seq<Byte>>,
    exp1: Option<seq<Byte>>, exp2: Option<seq<Byte>>, coefficient: Option<seq<Byte>>)

  /** The attributes `createTemplate` sets on the public key, and the RSA components
      `importRSAPublicKey` adds (absent until then). */
  datatype PublicKeyTemplate = PublicKeyTemplate(
    token: bool, objectClass: ObjectClass, keyType: KeyType, isPrivate: bool,
    keyLabel: string, id: seq<Byte>,
    verify: bool, encrypt: bool, wrap: bool,
    publicExponent: Option<seq<Byte>>, modulus: Option<seq<Byte>>)

  datatype TemplatePair = TemplatePair(privateKey: PrivateKeyTemplate, publicKey: PublicKeyTemplate)

  /** `keyUsages.indexOf(usage)`: the first position of `usage`, or -1. */
  function IndexOf(keyUsages: seq<string>, usage: string): (r: int)
    ensures -1 <= r < |keyUsages|
    ensures r == -1 <==> usage !in keyUsages
    ensures r >= 0 ==> keyUsages[r] == usage && usage !in keyUsages[..r]
  {
    if keyUsages == [] then -1
    else if keyUsages[0] == usage then 0
    else
      var k := IndexOf(keyUsages[1..], usage);
      assert keyUsages == [keyUsages[0]] + keyUsages[1..];
      if k == -1 then -1
      else
        assert keyUsages[..k + 1] == [keyUsages[0]] + keyUsages[1..][..k];
        k + 1
  }

  /** `createTemplate(label, extractable, keyUsages)`, with the 20 random bytes of the
      key identifier passed in as `idKey`. */
  function CreateTemplate(keyLabel: string, extractable: bool, keyUsages: seq<string>, idKey: seq<Byte>): (pair: TemplatePair)
    requires |idKey| == 20
    ensures pair.privateKey.id == idKey && pair.publicKey.id == idKey
    ensures pair.privateKey.keyLabel == keyLabel && pair.publicKey.keyLabel == keyLabel
    ensures pair.privateKey.token && pair.publicKey.token
    ensures pair.privateKey.keyType == Rsa && pair.publicKey.keyType == Rsa
    ensures pair.privateKey.objectClass == PrivateKeyClass && pair.publicKey.objectClass == PublicKeyClass
    ensures pair.privateKey.isPrivate && !pair.publicKey.isPrivate
    ensures pair.privateKey.extractable == extractable && !pair.privateKey.derive
    ensures pair.privateKey.sign <==> "sign" in keyUsages
    ensures pair.privateKey.decrypt <==> "decrypt" in keyUsages
    ensures pair.privateKey.unwrap <==> "unwrapKey" in keyUsages
    ensures pair.publicKey.verify <==> "verify" in keyUsages
    ensures pair.publicKey.encrypt <==> "encrypt" in keyUsages
    ensures pair.publicKey.wrap <==> "wrapKey" in keyUsages
    ensures pair.privateKey.publicExponent == None && pair.privateKey.modulus == None
    ensures pair.privateKey.privateExponent == None && pair.privateKey.prime1 == None
    ensures pair.privateKey.prime2 == None && pair.privateKey.exp1 == None
    ensures pair.privateKey.exp2 == None && pair.privateKey.coefficient == None
    ensures pair.publicKey.publicExponent == None && pair.publicKey.modulus == None
  {
    TemplatePair(
      PrivateKeyTemplate(
        token := true, objectClass := PrivateKeyClass, keyType := Rsa, isPrivate := true,
        keyLabel := keyLabel, id := idKey, extractable := extractable, derive := false,
        sign := IndexOf(keyUsages, "sign") > -1,
        decrypt := IndexOf(keyUsages, "decrypt") > -1,
        unwrap := IndexOf(keyUsages, "unwrapKey") > -1,
        publicExponent := None, modulus := None, privateExponent := None,
        prime1 := None, prime2 := None, exp1 := None, exp2 := None, coefficient := None),
      PublicKeyTemplate(
        token := true, objectClass := PublicKeyClass, keyType := Rsa, isPrivate := false,
        keyLabel := keyLabel, id := idKey,
        verify := IndexOf(keyUsages, "verify") > -1,
        encrypt := IndexOf(keyUsages, "encrypt") > -1,
        wrap := IndexOf(keyUsages, "wrapKey") > -1,
        publicExponent := None, modulus := None))
  }

  /** The usages `["sign", "verify"]` enable signing and verifying and nothing else. */
  lemma SignVerifyExample(keyLabel: string, extractable: bool, idKey: seq<Byte>)
    requires |idKey| == 20
    ensures var pair := CreateTemplate(keyLabel, extractable, ["sign", "verify"], idKey);
      pair.privateKey.sign && !pair.privateKey.decrypt && !pair.privateKey.unwrap &&
      pair.publicKey.verify && !pair.publicKey.encrypt && !pair.publicKey.wrap
  {
  }

  /** The public components NodeRSA exports: modulus `n` (a buffer) and exponent `e`
      (a number). */
  datatype PublicComponents = PublicComponents(n: seq<Byte>, e: int)

  /** The private components NodeRSA exports. */
  datatype PrivateComponents = PrivateComponents(
    n: seq<Byte>, e: int, d: seq<Byte>, p: seq<Byte>, q: seq<Byte>,
    dmp1: seq<Byte>, dmq1: seq<Byte>, coeff: seq<Byte>)

  /** The template `importRSAPublicKey` hands to the session: the public half of
      `createTemplate` with the modulus and the exponent (as 4 big-endian bytes)
      added. */
  method ImportRSAPublicKeyTemplate(keyLabel: string, extractable: bool, keyUsages: seq<string>,
                                    idKey: seq<Byte>, key: PublicComponents)
    returns (template: PublicKeyTemplate)
    requires |idKey| == 20
    ensures template.publicExponent.Some? && |template.publicExponent.value| == 4
    ensures BigEndian(template.publicExponent.value) == key.e % IntCodec.Two32
    ensures template == CreateTemplate(keyLabel, extractable, keyUsages, idKey).publicKey.(
      publicExponent := template.publicExponent, modulus := Some(key.n))
  {
    template := CreateTemplate(keyLabel, extractable, keyUsages, idKey).publicKey;
    var e := IntCodec.Int32ToBuffer(IntCodec.Number(key.e));
    template := template.(publicExponent := Some(e));
    template := template.(modulus := Some(key.n));
  }

  /** The template `importRSAPrivateKey` hands to the session: the private half of
      `createTemplate` with all eight RSA components added. */
  method ImportRSAPrivateKeyTemplate(keyLabel: string, extractable: bool, keyUsages: seq<string>,
                                     idKey: seq<Byte>, key: PrivateComponents)
    returns (template: PrivateKeyTemplate)
    requires |idKey| == 20
    ensures template.publicExponent.Some? && |template.publicExponent.value| == 4
    ensures BigEndian(template.publicExponent.value) == key.e % IntCodec.Two32
    ensures template == CreateTemplate(keyLabel, extractable, keyUsages, idKey).privateKey.(
      publicExponent := template.publicExponent, modulus := Some(key.n),
      privateExponent := Some(key.d), prime1 := Some(key.p), prime2 := Some(key.q),
      exp1 := Some(key.dmp1), exp2 := Some(key.dmq1), coefficient := Some(key.coeff))
  {
    template := CreateTemplate(keyLabel, extractable, keyUsages, idKey).privateKey;
    var e := IntCodec.Int32ToBuffer(IntCodec.Number(key.e));
    template := template.(publicExponent := Some(e));
    template := template.(modulus := Some(key.n));
    template := template.(privateExponent := Some(key.d));
    template := template.(prime1 := Some(key.p));
    template := template.(prime2 := Some(key.q));
    template := template.(exp1 := Some(key.dmp1));
    template := template.(exp2 := Some(key.dmq1));
    template := template.(coefficient := Some(key.coeff));
  }
}
