/** Secret wrapping (crates/forgekit-core/src/secrets.rs): a secret is
    stored as "encrypted:" followed by the Base64 of its UTF-8 bytes. */
module Secrets {
  import opened Common
  import Utf8
  import Base64

  const PREFIX: string := "encrypted:"

  /** `encrypt_secret`: the prefix, then four characters for every three
      bytes of the UTF-8 text, the last group padded. */
  function EncryptSecret(value: string): (r: string)
    ensures PREFIX <= r
    ensures |r| == |PREFIX| + 4 * ((|Utf8.Encode(value)| + 2) / 3)
  {
    Base64.EncodeLength(Utf8.Encode(value));
    PREFIX + Base64.Encode(Utf8.Encode(value))
  }

  /** `decrypt_secret`: text without the prefix passes through unchanged;
      after the prefix there must be canonical Base64 of valid UTF-8. */
  function DecryptSecret(s: string): (r: Result<string>)
    ensures !(PREFIX <= s) ==> r == Ok(s)
    ensures r.Err? ==> PREFIX <= s && r.error.InvalidConfig?
  {
    if PREFIX <= s then
      match Base64.Decode(s[|PREFIX|..])
      case None => Err(InvalidConfig("Failed to decrypt secret"))
      case Some(bytes) =>
        match Utf8.Decode(bytes)
        case None => Err(InvalidConfig("Invalid UTF-8 in decrypted secret"))
        case Some(text) => Ok(text)
    else Ok(s)
  }

  /** Decrypting an encrypted secret gives the secret back. */
  lemma DecryptEncrypt(value: string)
    ensures DecryptSecret(EncryptSecret(value)) == Ok(value)
  {
    var b := Utf8.Encode(value);
    var e := EncryptSecret(value);
    assert e[|PREFIX|..] == Base64.Encode(b);
    Base64.DecodeEncode(b);
    Utf8.DecodeEncode(value);
  }

  /** A prefixed text decrypts exactly when it is the encryption of what it
      decrypts to. */
  lemma EncryptDecrypt(s: string)
    requires PREFIX <= s && DecryptSecret(s).Ok?
    ensures EncryptSecret(DecryptSecret(s).value) == s
  {
    var t := s[|PREFIX|..];
    var bytes := Base64.Decode(t).value;
    var text := Utf8.Decode(bytes).value;
    assert DecryptSecret(s) == Ok(text);
    Utf8.EncodeDecode(bytes);
    Base64.EncodeDecode(t);
    calc {
      EncryptSecret(text);
      PREFIX + Base64.Encode(Utf8.Encode(text));
      PREFIX + Base64.Encode(bytes);
      PREFIX + t;
      s;
    }
  }

  /** Text without the prefix is returned unchanged. */
  lemma DecryptPassesPlainText(s: string)
    requires !(PREFIX <= s)
    ensures DecryptSecret(s) == Ok(s)
  {
  }

  /** After the prefix, text that is not Base64, or Base64 of bytes that are
      not UTF-8, is an `InvalidConfig` error, and nothing else fails. */
  lemma DecryptFailures(s: string)
    requires PREFIX <= s
    ensures Base64.Decode(s[|PREFIX|..]).None? ==>
      DecryptSecret(s) == Err(InvalidConfig("Failed to decrypt secret"))
    ensures Base64.Decode(s[|PREFIX|..]).Some? && Utf8.Decode(Base64.Decode(s[|PREFIX|..]).value).None? ==>
      DecryptSecret(s) == Err(InvalidConfig("Invalid UTF-8 in decrypted secret"))
    ensures DecryptSecret(s).Err? ==> DecryptSecret(s).error.InvalidConfig?
  {
  }

  /** "encrypted:gA==" holds the single byte 0x80, which is not UTF-8. */
  lemma NonUtf8SecretRejected()
    ensures DecryptSecret("encrypted:gA==") == Err(InvalidConfig("Invalid UTF-8 in decrypted secret"))
  {
    assert PREFIX <= "encrypted:gA==";
    assert "encrypted:gA=="[|PREFIX|..] == "gA==";
    assert Base64.Decode("gA==") == Some([0x80]);
    Utf8.StrayContinuationRejected();
  }
}
