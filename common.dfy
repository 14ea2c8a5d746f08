/** Shared vocabulary: bytes, the character constants the program compares
    against, C strings, and the capacity constants of zmc.h. */
module Common {

  /** An unsigned 8-bit value (C `uint8_t` / `unsigned char`). */
  newtype byte = x: int | 0 <= x < 256

  /** An unsigned 16-bit value (`uint16_t`, and `unsigned int` on the Z80 compiler). */
  newtype u16 = x: int | 0 <= x < 0x1_0000

  datatype Option<T> = None | Some(value: T)

  /** Capacity of a panel's file array (MAX_FILES). */
  const MAX_FILES: nat := 80
  /** Number of file rows visible in a panel (PANEL_HEIGHT minus two borders). */
  const VISIBLE_ROWS: nat := 28

  const NUL: byte := 0
  const BS: byte := 0x08
  const TAB: byte := 0x09
  const CTRL_X: byte := 24
  const ESC: byte := 0x1B
  const SPACE: byte := ' ' as byte
  const BANG: byte := '!' as byte
  const DOT: byte := '.' as byte
  const TILDE: byte := '~' as byte
  const RUB: byte := 0x7F
  const ERASED: byte := 0xE5

  /** `b & 0x7F`: the byte with its attribute bit (bit 7) cleared. */
  function Strip7(b: byte): (r: byte)
    ensures r < 128
    ensures b < 128 ==> r == b
    ensures r == b || r + 128 == b
  {
    b % 128
  }

  function StripAll(s: seq<byte>): (r: seq<byte>)
    ensures |r| == |s|
    ensures forall i :: 0 <= i < |s| ==> r[i] == Strip7(s[i])
  {
    seq(|s|, i requires 0 <= i < |s| => Strip7(s[i]))
  }

  /** The C string held in a NUL-terminated buffer: everything before the first NUL. */
  function CStr(buf: seq<byte>): (r: seq<byte>)
    ensures |r| <= |buf| && r == buf[..|r|]
    ensures NUL !in r
    ensures |r| < |buf| ==> buf[|r|] == NUL
  {
    if buf == [] || buf[0] == NUL then [] else [buf[0]] + CStr(buf[1..])
  }

  /** A C string's contents: bytes up to, and without, the terminating NUL. */
  type CString = s: seq<byte> | NUL !in s

  /** The bytes of `s` before the first `c` (all of `s` when there is none). */
  function UpTo(s: seq<byte>, c: byte): (r: seq<byte>)
    ensures |r| <= |s| && r == s[..|r|]
    ensures c !in r
    ensures |r| < |s| ==> s[|r|] == c
  {
    if s == [] || s[0] == c then [] else [s[0]] + UpTo(s[1..], c)
  }

  /** UpTo stops exactly at the first `c`, or takes everything if there is none. */
  lemma {:induction false} UpToAt(s: seq<byte>, c: byte, n: nat)
    requires n <= |s| && c !in s[..n]
    requires n < |s| ==> s[n] == c
    ensures UpTo(s, c) == s[..n]
  {
    if n > 0 {
      assert s[0] != c by { assert s[0] == s[..n][0]; }
      assert s[1..][..n - 1] == s[1..n];
      assert forall x :: x in s[1..n] ==> x in s[..n];
      UpToAt(s[1..], c, n - 1);
      assert s[..n] == [s[0]] + s[1..n];
    }
  }

  /** `n` copies of `b` (what `memset` writes). */
  function Fill(n: nat, b: byte): (r: seq<byte>)
    ensures |r| == n && forall i :: 0 <= i < n ==> r[i] == b
  {
    seq(n, _ => b)
  }

  /** `s[i]` when `i` is inside the string, the terminating NUL past its end. */
  function At(s: seq<byte>, i: nat): byte {
    if i < |s| then s[i] else NUL
  }

  function Min(a: int, b: int): int { if a <= b then a else b }
  function Max(a: int, b: int): int { if a >= b then a else b }
}
