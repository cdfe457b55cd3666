/**
 * The input side of terminal.c: `term_get_key` as a decoder over the bytes
 * waiting on standard input, and the resize flag that the `SIGWINCH`
 * handler sets and `term_has_resized` clears.
 */
module Terminal {
  import opened Cells

  /** The key codes of terminal.h for the four arrow keys. */
  const KeyUp := 1000
  const KeyDown := 1001
  const KeyRight := 1002
  const KeyLeft := 1003

  /** What `term_get_key` returns when no byte is waiting. */
  const NoKey := -1

  const Esc := 27
  const Bracket := '[' as int

  /**
   * A byte read into a plain `char`, taken to be signed (as on x86-64):
   * bytes from 128 up come back negative. Where plain `char` is unsigned
   * the byte would come back unchanged; the model does not cover that.
   */
  function Signed(b: Byte): (c: int)
    ensures -128 <= c < 128 && c % 256 == b
  {
    if b < 128 then b else b - 256
  }

  /** The arrow key a final byte `A`, `B`, `C` or `D` of `ESC [` names, if any. */
  function Arrow(c: int): Option<int> {
    if c == 'A' as int then Some(KeyUp)
    else if c == 'B' as int then Some(KeyDown)
    else if c == 'C' as int then Some(KeyRight)
    else if c == 'D' as int then Some(KeyLeft)
    else None
  }

  /**
   * One call of `term_get_key` on the waiting bytes: the key code and the
   * bytes left. An escape reads up to two more bytes; an arrow sequence is
   * a key code from terminal.h, anything else after an escape is dropped
   * and the escape itself is returned.
   */
  function Decode(input: seq<Byte>): (r: (int, seq<Byte>))
    ensures |r.1| <= |input| && r.1 == input[|input| - |r.1|..]
    ensures |input| - |r.1| <= 3
    ensures |r.1| == |input| <==> input == []
  {
    if |input| == 0 then (NoKey, input)
    else if Signed(input[0]) != Esc then (Signed(input[0]), input[1..])
    else if |input| < 3 then (Esc, [])
    else if Signed(input[1]) == Bracket && Arrow(Signed(input[2])).Some? then
      (Arrow(Signed(input[2])).value, input[3..])
    else (Esc, input[3..])
  }

  // ---------------------------------------------------------------------
  // Keys and their bytes
  // ---------------------------------------------------------------------

  /** A key press as the terminal sends it. */
  datatype Key = Plain(b: Byte) | ArrowKey(final: char)

  /** Whether `k` is something the decoder can recognise. */
  predicate Sendable(k: Key) {
    match k
    case Plain(b) => b != Esc
    case ArrowKey(f) => f in {'A', 'B', 'C', 'D'}
  }

  /** The bytes a terminal sends for `k`. */
  function Encode(k: Key): seq<Byte>
    requires Sendable(k)
  {
    match k
    case Plain(b) => [b]
    case ArrowKey(f) => [Esc, Bracket, f as int]
  }

  /** The code `term_get_key` should report for `k`. */
  function Code(k: Key): int
    requires Sendable(k)
  {
    match k
    case Plain(b) => Signed(b)
    case ArrowKey(f) => Arrow(f as int).value
  }

  /**
   * Decoding the bytes of a key followed by anything returns that key's
   * code and leaves exactly what followed.
   */
  lemma DecodeEncode(k: Key, rest: seq<Byte>)
    requires Sendable(k)
    ensures Decode(Encode(k) + rest) == (Code(k), rest)
  {
    var bytes := Encode(k) + rest;
    if k.ArrowKey? {
      assert bytes[3..] == rest;
    } else {
      assert bytes[1..] == rest;
    }
  }

  /** Reading the keys of a list one call at a time gives back their codes in order. */
  function DecodeAll(input: seq<Byte>): seq<int>
    decreases |input|
  {
    if input == [] then [] else [Decode(input).0] + DecodeAll(Decode(input).1)
  }

  function EncodeAll(ks: seq<Key>): seq<Byte>
    requires forall i :: 0 <= i < |ks| ==> Sendable(ks[i])
  {
    if ks == [] then [] else Encode(ks[0]) + EncodeAll(ks[1..])
  }

  /** A typed sequence of keys is decoded back into their codes, one per key. */
  lemma {:induction false} DecodeAllEncodeAll(ks: seq<Key>)
    requires forall i :: 0 <= i < |ks| ==> Sendable(ks[i])
    ensures DecodeAll(EncodeAll(ks)) == seq(|ks|, i requires 0 <= i < |ks| => Code(ks[i]))
  {
    if ks != [] {
      DecodeEncode(ks[0], EncodeAll(ks[1..]));
      DecodeAllEncodeAll(ks[1..]);
    }
  }

  // ---------------------------------------------------------------------
  // Edge cases of the decoder
  // ---------------------------------------------------------------------

  /** With nothing waiting the result is -1 and nothing is consumed. */
  lemma NothingWaiting()
    ensures Decode([]) == (NoKey, [])
  {
  }

  /** An escape with fewer than two bytes after it is returned as an escape, consuming what there is. */
  lemma TruncatedEscape(input: seq<Byte>)
    requires 1 <= |input| < 3 && input[0] == Esc
    ensures Decode(input) == (Esc, [])
  {
  }

  /**
   * An escape followed by two bytes that are not `[` and an arrow letter is
   * returned as an escape, and both bytes are discarded.
   */
  lemma UnknownEscape(a: Byte, b: Byte, rest: seq<Byte>)
    requires !(a == Bracket && b in {'A' as int, 'B' as int, 'C' as int, 'D' as int})
    ensures Decode([Esc, a, b] + rest) == (Esc, rest)
  {
    assert ([Esc, a, b] + rest)[3..] == rest;
  }

  /**
   * The arrow codes are never the code of a single byte, and the only
   * results are single-byte codes, the four arrows, and -1 for "no key".
   */
  lemma CodesDistinct(input: seq<Byte>)
    ensures Decode(input).0 >= KeyUp ==> Decode(input).0 <= KeyLeft && |input| - |Decode(input).1| == 3
    ensures Decode(input).0 < KeyUp ==> -128 <= Decode(input).0 < 128
  {
  }

  /**
   * With a signed `char`, the byte 0xFF comes back as -1, which is the
   * same code as "no key", although a byte was consumed.
   */
  lemma ByteFFIsNoKey(rest: seq<Byte>)
    ensures Decode([255] + rest).0 == Decode([]).0
    ensures Decode([255] + rest).1 == rest
  {
    assert ([255] + rest)[1..] == rest;
  }

  // ---------------------------------------------------------------------
  // The terminal's input state
  // ---------------------------------------------------------------------

  /** The resize flag and the bytes waiting on standard input. */
  class Input {
    var resized: bool
    var pending: seq<Byte>

    /** The flag starts set, so the first check reports a resize. */
    constructor (waiting: seq<Byte>)
      ensures resized && pending == waiting
    {
      resized := true;
      pending := waiting;
    }

    /** `handle_winch`: the signal handler only sets the flag. */
    method HandleWinch()
      modifies this
      ensures resized && pending == old(pending)
    {
      resized := true;
    }

    /** `term_has_resized`: reports the flag and clears it; a second call reports false. */
    method HasResized() returns (r: bool)
      modifies this
      ensures r == old(resized) && !resized && pending == old(pending)
    {
      if resized {
        resized := false;
        return true;
      }
      return false;
    }

    /** `term_get_key`: one byte read at a time, as the three `read` calls do. */
    method GetKey() returns (c: int)
      modifies this
      ensures (c, pending) == Decode(old(pending))
      ensures resized == old(resized)
    {
      if |pending| == 0 {
        return NoKey;
      }
      c := Signed(pending[0]);
      pending := pending[1..];
      if c == Esc {
        if |pending| == 0 {
          return Esc;
        }
        var s0 := Signed(pending[0]);
        pending := pending[1..];
        if |pending| == 0 {
          return Esc;
        }
        var s1 := Signed(pending[0]);
        pending := pending[1..];
        if s0 == Bracket {
          if s1 == 'A' as int {
            return KeyUp;
          } else if s1 == 'B' as int {
            return KeyDown;
          } else if s1 == 'C' as int {
            return KeyRight;
          } else if s1 == 'D' as int {
            return KeyLeft;
          }
        }
        return Esc;
      }
    }
  }
}
