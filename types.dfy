// Machine types, bounds and message layouts shared by the coordinator and the
// workers (hash_utils.h).
module Types {

  /** A C `char`, read as the unsigned byte that the hash folds in. */
  newtype byte = b: int | 0 <= b < 256

  /** A C `uint64_t`: arithmetic on it is checked by Dafny never to leave the range. */
  newtype u64 = x: int | 0 <= x < 0x1_0000_0000_0000_0000

  const U64_LIMIT: nat := 0x1_0000_0000_0000_0000

  /** Capacity of the text buffer; load_text reads at most MAX_TEXT_SIZE - 1 bytes. */
  const MAX_TEXT_SIZE: nat := 10000

  /** Capacity of every nonce buffer, terminator included. */
  const MAX_NONCE_SIZE: nat := 10

  /** `char charset[65]` holds at most 64 symbols and a terminator. */
  const MAX_CHARSET_SIZE: nat := 64

  datatype Option<T> = None | Some(value: T)

  /** WorkConfig: `text_length` is `|text|` and `charset_size` is `|charset|`. */
  datatype WorkConfig = WorkConfig(text: seq<byte>, nonceLength: nat, difficulty: int, charset: seq<byte>)

  /** WorkRange: the meaningful `nonceLength` bytes of both buffers. */
  datatype WorkRange = WorkRange(startNonce: seq<byte>, endNonce: seq<byte>)

  predicate Distinct(s: seq<byte>)
  {
    forall i, j :: 0 <= i < j < |s| ==> s[i] != s[j]
  }

  /** What the buffers of WorkConfig and WorkRange allow, and a charset of distinct symbols. */
  predicate ValidConfig(c: WorkConfig)
  {
    |c.text| < MAX_TEXT_SIZE &&
    c.nonceLength < MAX_NONCE_SIZE &&
    1 <= |c.charset| <= MAX_CHARSET_SIZE &&
    Distinct(c.charset)
  }
}
