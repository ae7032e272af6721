/** Keys, key derivation and authenticated encryption, with ideal primitives.

    A sealed value carries the key, associated data and plaintext it was made from, and opens only
    under that key and that associated data.  Derived keys carry everything they were derived from,
    so derivation is injective. */
module Crypto {

  type Byte = b: int | 0 <= b < 256

  type Uuid = s: seq<Byte> | |s| == 16 witness [0, 0, 0, 0, 0, 0, 0, 0, 0, 0, 0, 0, 0, 0, 0, 0]

  datatype Option<+T> = None | Some(value: T)

  datatype Error =
    | Kdf
    | Decrypt
    | Malformed
    | DamagedFile
    | UnsupportedFormat(format: nat)
    | UnsupportedKdf(algorithm: string)
    | ItemNotFound(id: Uuid)

  datatype Result<+T> = Ok(value: T) | Err(error: Error) {
    predicate IsFailure() {
      Err?
    }

    function PropagateFailure<U>(): Result<U>
      requires Err?
    {
      Err(error)
    }

    function Extract(): T
      requires Ok?
    {
      value
    }
  }

  const KEY_LEN := 32
  const MIN_MEMORY_KIB := 8192
  const MAX_MEMORY_KIB := 1048576
  const MAX_ITERATIONS := 16
  const MAX_PARALLELISM := 16

  /** Argon2id cost parameters. */
  datatype KdfParams = KdfParams(memoryKib: nat, iterations: nat, parallelism: nat) {
    predicate InRange() {
      && MIN_MEMORY_KIB <= memoryKib <= MAX_MEMORY_KIB
      && 1 <= iterations <= MAX_ITERATIONS
      && 1 <= parallelism <= MAX_PARALLELISM
    }

    predicate AtLeastAsStrongAs(other: KdfParams) {
      && memoryKib >= other.memoryKib
      && iterations >= other.iterations
      && parallelism >= other.parallelism
    }
  }

  const DEFAULT_PARAMS := KdfParams(65536, 3, 4)

  datatype KdfHeader = KdfHeader(algorithm: string, salt: seq<Byte>, params: KdfParams)

  datatype Key =
    | Derived(password: string, salt: seq<Byte>, params: KdfParams)
    | Raw(bytes: seq<Byte>)

  function DeriveKey(password: string, salt: seq<Byte>, params: KdfParams): Result<Key> {
    if |salt| < 8 then Err(Kdf) else Ok(Derived(password, salt, params))
  }

  function KeyFromSlice(bytes: seq<Byte>): Result<Key> {
    if |bytes| == KEY_LEN then Ok(Raw(bytes)) else Err(Malformed)
  }

  /** Associated data: raw bytes for what travels to the server, the vault header for the file. */
  datatype Aad = Bytes(bytes: seq<Byte>) | Header(format: nat, kdf: KdfHeader)

  datatype Sealed<P> = Sealed(key: Key, aad: Aad, plain: P) | Garbage(text: string)

  function Open<P>(key: Key, sealed: Sealed<P>, aad: Aad): Result<P> {
    if sealed.Sealed? && sealed.key == key && sealed.aad == aad then Ok(sealed.plain) else Err(Decrypt)
  }

  // "yara.tombstone.v1"
  const DELETION_AAD: seq<Byte> :=
    [121, 97, 114, 97, 46, 116, 111, 109, 98, 115, 116, 111, 110, 101, 46, 118, 49]

  function ItemAad(id: Uuid): Aad {
    Bytes(id)
  }

  function DeletionAad(id: Uuid): Aad {
    Bytes(DELETION_AAD + id)
  }

  /** The two uses of the vault key towards the server are domain separated: no item's associated
      data is any deletion's, and a deletion's names exactly one id. */
  lemma AadsAreSeparate(a: Uuid, b: Uuid)
    ensures ItemAad(a) != DeletionAad(b)
    ensures DeletionAad(a) == DeletionAad(b) <==> a == b
  {
    assert (DELETION_AAD + a)[|DELETION_AAD|..] == a;
    assert (DELETION_AAD + b)[|DELETION_AAD|..] == b;
  }
}
