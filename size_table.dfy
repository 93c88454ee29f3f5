/** The item sizes of the two list kinds, by crypto type code. */
module SizeTable {
  import opened Cte

  /** get_public_key_size: the bytes one public key of the given crypto type occupies. */
  function PublicKeySize(typeCode: u8): (r: Result<nat>)
    ensures r.Ok? <==> typeCode <= CRYPTO_TYPE_SLH_DSA_256F
    ensures r.Err? ==> r.error == InvalidTypeCode
    ensures r.Ok? ==> PUBKEY_SIZE_ED25519 <= r.value <= PUBKEY_SIZE_SLH_256F
    ensures typeCode == CRYPTO_TYPE_SLH_DSA_192F ==> r == Ok(PUBKEY_SIZE_SLH_192F)
  {
    match typeCode
    case 0 => Ok(PUBKEY_SIZE_ED25519)
    case 1 => Ok(PUBKEY_SIZE_SLH_128F)
    case 2 => Ok(PUBKEY_SIZE_SLH_192F)
    case 3 => Ok(PUBKEY_SIZE_SLH_256F)
    case _ => Err(InvalidTypeCode)
  }

  /** get_signature_item_size: a full Ed25519 signature, or the hash of a post-quantum signature. */
  function SignatureItemSize(typeCode: u8): (r: Result<nat>)
    ensures r.Ok? <==> typeCode <= CRYPTO_TYPE_SLH_DSA_256F
    ensures r.Err? ==> r.error == InvalidTypeCode
    ensures typeCode == CRYPTO_TYPE_ED25519 ==> r == Ok(SIGNATURE_SIZE_ED25519)
    ensures CRYPTO_TYPE_SLH_DSA_128F <= typeCode <= CRYPTO_TYPE_SLH_DSA_256F ==> r == Ok(SIGNATURE_HASH_SIZE_PQC)
  {
    match typeCode
    case 0 => Ok(SIGNATURE_SIZE_ED25519)
    case 1 | 2 | 3 => Ok(SIGNATURE_HASH_SIZE_PQC)
    case _ => Err(InvalidTypeCode)
  }

  /** Every valid crypto type has a non-empty item in both tables, and the largest list of
      either kind, header included, fits in a transaction. */
  lemma ListPayloadFits(count: u8, typeCode: u8)
    requires 1 <= count <= LIST_MAX_LEN && typeCode <= CRYPTO_TYPE_SLH_DSA_256F
    ensures PublicKeySize(typeCode).value > 0 && SignatureItemSize(typeCode).value > 0
    ensures 1 + count * PublicKeySize(typeCode).value <= MAX_TRANSACTION_SIZE
    ensures 1 + count * SignatureItemSize(typeCode).value <= MAX_TRANSACTION_SIZE
  {
  }
}
