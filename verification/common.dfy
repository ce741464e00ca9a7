/** Shared vocabulary of the model: bytes, Option, and the error type that
    mirrors ForgeKitError (crates/forgekit-core/src/error.rs), plus a
    `Network` variant the model adds. */
module Common {

  /** One byte of a file, a network payload or an encoded string. */
  type Byte = x: int | 0 <= x < 256

  type Bytes = seq<Byte>

  datatype Option<+T> = None | Some(value: T)

  /** The variants of ForgeKitError, and `Network`. Variants that wrap a library error (I/O,
      JSON, TOML, ZIP) carry no payload: the wrapped error is opaque here.
      `Network` stands for the HTTP client's errors, which the registry
      propagates with `?` although error.rs declares no variant for them. */
  datatype Error =
    | Io
    | Json
    | Toml
    | ProjectExists(path: string)
    | ProjectNotFound(path: string)
    | InvalidConfig(message: string)
    | BuildFailed(message: string)
    | PackagingFailed(message: string)
    | TemplateError(message: string)
    | Zip
    | TomlSerialization
    | Network

  /** `Result<T, ForgeKitError>`; usable with `:-` like Rust's `?`. */
  datatype Result<+T> = Ok(value: T) | Err(error: Error) {
    predicate IsFailure() {
      Err?
    }

    function PropagateFailure<U>(): Result<U>
      requires Err?
    {
      Err(error)
    }

    function Extract(): T
      requires Ok?
    {
      value
    }
  }

  /** Concatenation regroups freely; a hint for long chains of appends. */
  lemma AppendAssoc<T>(a: seq<T>, b: seq<T>, c: seq<T>)
    ensures a + b + c == a + (b + c)
  {
  }

  /** A sequence of three or more is its first three elements and the rest. */
  lemma SplitThree<T>(s: seq<T>)
    requires |s| >= 3
    ensures s == [s[0], s[1], s[2]] + s[3..]
  {
  }
}
