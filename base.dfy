/** Values shared by every part of the model: bytes, the browser's `File`,
    optional values and results carrying an error message. */
module Base {

  /** One element of a `Uint8Array` / `ArrayBuffer`. */
  newtype byte = x: int | 0 <= x < 256

  /** A browser `File`: its name, its bytes and its MIME type (`""` when the
      constructor is given no `type` option). */
  datatype File = File(name: string, content: seq<byte>, mimeType: string)

  datatype Option<+T> = None | Some(value: T)

  /** The outcome of an operation that may throw; the error is the message
      of the thrown `Error`. */
  datatype Result<+T> = Ok(value: T) | Err(message: string)

  /** The bytes `TextEncoder.encode` produces for a string of ASCII
      characters: one byte per character, holding its code point. */
  function AsciiBytes(s: string): (r: seq<byte>)
    requires forall k :: 0 <= k < |s| ==> s[k] as int < 128
    ensures |r| == |s|
    ensures forall k :: 0 <= k < |s| ==> r[k] as int == s[k] as int
  {
    seq(|s|, k requires 0 <= k < |s| => s[k] as int as byte)
  }

  /** A sequence of numbers that never goes down. */
  predicate NonDecreasing(s: seq<nat>) {
    forall i, j :: 0 <= i < j < |s| ==> s[i] <= s[j]
  }

  lemma NonDecreasingPrepend(x: nat, s: seq<nat>)
    requires NonDecreasing(s) && (s == [] || x <= s[0])
    ensures NonDecreasing([x] + s)
  {
    var q := [x] + s;
    forall i, j | 0 <= i < j < |q| ensures q[i] <= q[j] {
      if i > 0 {
        assert q[i] == s[i - 1] && q[j] == s[j - 1];
      } else {
        assert q[j] == s[j - 1];
      }
    }
  }

  lemma NonDecreasingAppend(s: seq<nat>, x: nat)
    requires NonDecreasing(s) && forall k :: 0 <= k < |s| ==> s[k] <= x
    ensures NonDecreasing(s + [x])
  {
  }

  lemma AppendAssociates<T>(h: seq<T>, a: seq<T>, b: seq<T>)
    ensures h + a + b == h + (a + b)
  {
  }
}
