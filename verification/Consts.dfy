/** Code points and protocol limits. */
module Consts {
  import opened Bytes

  const CT_CHANGE_CIPHER_SPEC: Byte := 20
  const CT_ALERT: Byte := 21
  const CT_HANDSHAKE: Byte := 22
  const CT_APPLICATION_DATA: Byte := 23

  const HS_CLIENT_HELLO: Byte := 1
  const HS_SERVER_HELLO: Byte := 2
  const HS_NEW_SESSION_TICKET: Byte := 4
  const HS_ENCRYPTED_EXTENSIONS: Byte := 8
  const HS_CERTIFICATE: Byte := 11
  const HS_CERTIFICATE_REQUEST: Byte := 13
  const HS_CERTIFICATE_VERIFY: Byte := 15
  const HS_FINISHED: Byte := 20
  const HS_KEY_UPDATE: Byte := 24

  const LEGACY_VERSION: nat := 0x0303
  const TLS_1_3: nat := 0x0304
  const LEGACY_SESSION_ID_LEN: nat := 32
  const CIPHER_AES_128_GCM_SHA256: nat := 0x1301
  const CIPHER_CHACHA20_POLY1305_SHA256: nat := 0x1303

  const EXT_SERVER_NAME: nat := 0
  const EXT_SUPPORTED_GROUPS: nat := 10
  const EXT_SIGNATURE_ALGORITHMS: nat := 13
  const EXT_ALPN: nat := 16
  const EXT_RECORD_SIZE_LIMIT: nat := 28
  const EXT_SUPPORTED_VERSIONS: nat := 43
  const EXT_KEY_SHARE: nat := 51

  const SIG_ED25519: nat := 0x0807
  const SIG_ECDSA_P256: nat := 0x0403
  const SIG_ECDSA_P384: nat := 0x0503
  const SIG_RSA_PSS: nat := 0x0804
  const SIG_MLDSA44: nat := 0x0904
  const SIG_MLDSA65: nat := 0x0905
  const SIG_MLDSA87: nat := 0x0906

  const TAG_INTEGER: Byte := 0x02
  const TAG_SEQUENCE: Byte := 0x30

  const RECORD_HEADER: nat := 5
  const AEAD_TAG_LEN: nat := 16
  const CONTENT_TYPE_LEN: nat := 1
  const TLS_PLAINTEXT_MAX: nat := 0x4000
  const TLS_CIPHERTEXT_MAX: nat := 0x4000 + 256
  const MIN_RECORD_SIZE_LIMIT: nat := 64
  const PROTO_MAX_INNER_PLAINTEXT: nat := 16385
}
