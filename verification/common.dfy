/** Value types shared by every component: bytes, and the ways a Rust call can end. */
module Common {

  /** A Rust `u8`. */
  type Byte = bv8

  /** A Rust `Vec<u8>` / `&[u8]`. */
  type Bytes = seq<Byte>

  /** A Rust `Option<T>`. */
  datatype Option<+T> = None | Some(value: T)

  /** A Rust `Result<T, E>`. */
  datatype Result<+T, +E> = Ok(value: T) | Err(error: E)

  /** How a Rust call ends: it returns a value, or it panics (the `expect`/`copy_from_slice`
      panics of the core); a panic has no value and unwinds or aborts the caller. The
      `reason` is a label naming the panic, not Rust's message text. */
  datatype Run<+T> = Returned(value: T) | Panicked(reason: string)

  /** `n` zero bytes, as in `[0u8; n]`. */
  function Zeros(n: nat): (r: Bytes)
    ensures |r| == n
    ensures forall i :: 0 <= i < n ==> r[i] == 0
  {
    seq(n, _ => 0)
  }

  /** A Rust `[u8; 32]`: keys, scalars, points and shared secrets. */
  type Bytes32 = b: Bytes | |b| == 32 witness Zeros(32)

  /** A Rust `[u8; 12]`: the ChaCha20-Poly1305 nonce. */
  type Bytes12 = b: Bytes | |b| == 12 witness Zeros(12)

  /** A label for the panic `copy_from_slice` raises when the two slices differ in length
      (Rust's own message also spells out both lengths). */
  const LengthMismatch: string := "source slice length does not match destination slice length"

  /** `dst.copy_from_slice(src)`: every byte of `dst` overwritten by the byte of `src` at the
      same index, or a panic, with `dst` untouched, when the lengths differ. */
  method CopyFromSlice(dst: array<Byte>, src: Bytes) returns (r: Run<()>)
    modifies dst
    ensures r.Panicked? <==> |src| != dst.Length
    ensures r.Panicked? ==> r.reason == LengthMismatch
    ensures r.Returned? ==> dst[..] == src
    ensures r.Panicked? ==> dst[..] == old(dst[..])
  {
    if |src| != dst.Length {
      return Panicked(LengthMismatch);
    }
    forall i | 0 <= i < dst.Length {
      dst[i] := src[i];
    }
    return Returned(());
  }
}
