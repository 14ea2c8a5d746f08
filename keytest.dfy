/** The function-key test program of keytest.c: every key read through
    wait_key_hw (which turns RUB into backspace) is shown by its code and a
    label, and two ESC keys in a row end the program. The keyboard is the
    sequence of raw bytes the BIOS console input returns. */
module KeyTest {
  import opened Common

  const AT_SIGN: byte := '@' as byte

  /** wait_key_hw of keytest.c: RUB is read as backspace, every other byte as itself. */
  function WaitKeyHw(raw: byte): (k: byte)
    ensures raw == RUB ==> k == BS
    ensures raw != RUB ==> k == raw
    ensures k != RUB
  {
    if raw == RUB then BS else raw
  }

  /** The label printed after the key's code: "ESC", a caret and a letter
      for the other control bytes, the byte itself when printable, else '.'. */
  datatype Shown = EscLabel | Caret(c: byte) | Glyph(c: byte)

  function Show(k: byte): (r: Shown)
    ensures r.Caret? ==> AT_SIGN <= r.c <= 'Z' as byte
    ensures r.Glyph? ==> SPACE <= r.c < 128
  {
    if k == ESC then EscLabel
    else if k < ESC then Caret(k + AT_SIGN)
    else Glyph(if SPACE <= k < 128 then k else DOT)
  }

  /** How each byte is labelled: control bytes below ESC as '^' and the
      byte plus '@', 0x20..0x7F as themselves, 0x1C..0x1F and 0x80..0xFF as '.'. */
  lemma ShowClasses(k: byte)
    ensures Show(k) == EscLabel <==> k == ESC
    ensures Show(k).Caret? <==> k < ESC
    ensures Show(k).Caret? ==> Show(k).c as int == k as int + 0x40 && AT_SIGN <= Show(k).c <= 'Z' as byte
    ensures SPACE <= k < 128 ==> Show(k) == Glyph(k)
    ensures (ESC < k < SPACE || k >= 128) ==> Show(k) == Glyph(DOT)
  {
  }

  /** Two different keys get the same label only when that label is the
      '.' of an unprintable byte or of '.' itself. */
  lemma ShowCollidesOnlyOnDot(k1: byte, k2: byte)
    requires k1 != k2 && Show(k1) == Show(k2)
    ensures Show(k1) == Glyph(DOT)
  {
  }

  /** A key and the one before it are both ESC. */
  predicate EscPairAt(s: seq<byte>, i: nat) {
    1 <= i < |s| && s[i - 1] == ESC && s[i] == ESC
  }

  /** The first position `i >= from` where the i-th key and the one before
      it are both ESC. */
  function FirstEscPairFrom(s: seq<byte>, from: nat): Option<nat>
    decreases |s| - from
  {
    if from >= |s| then None
    else if EscPairAt(s, from) then Some(from)
    else FirstEscPairFrom(s, from + 1)
  }

  function FirstEscPair(s: seq<byte>): Option<nat> {
    FirstEscPairFrom(s, 1)
  }

  /** FirstEscPairFrom finds the first ESC pair at or after `from`, and
      answers None only when there is none. */
  lemma {:induction false} FirstEscPairFromCorrect(s: seq<byte>, from: nat)
    ensures var r := FirstEscPairFrom(s, from);
      (r.Some? ==> from <= r.value && EscPairAt(s, r.value) &&
                   forall j :: from <= j < r.value ==> !EscPairAt(s, j)) &&
      (r.None? ==> forall j :: from <= j ==> !EscPairAt(s, j))
    decreases |s| - from
  {
    if from < |s| && !EscPairAt(s, from) {
      FirstEscPairFromCorrect(s, from + 1);
    }
  }

  /** ESC, another key, ESC does not end the program: the key in between
      clears the remembered ESC. */
  lemma EscOtherEscKeepsGoing(x: byte)
    requires x != ESC
    ensures FirstEscPair([ESC, x, ESC]) == None
  {
    FirstEscPairFromCorrect([ESC, x, ESC], 1);
  }

  /** The program's loop: read a key, show it, stop after the first ESC
      that follows an ESC. With the keyboard exhausted before that, `used`
      is every byte and the program is still waiting. */
  method Run(input: seq<byte>) returns (shown: seq<Shown>, used: nat, exited: bool)
    ensures exited <==> FirstEscPair(input).Some?
    ensures used == (if exited then FirstEscPair(input).value + 1 else |input|)
    ensures used <= |input|
    ensures shown == seq(used, j requires 0 <= j < used => Show(WaitKeyHw(input[j])))
  {
    FirstEscPairFromCorrect(input, 1);
    var esc := false;
    shown := [];
    var i := 0;
    while i < |input|
      invariant 0 <= i <= |input|
      invariant esc <==> i > 0 && input[i - 1] == ESC
      invariant forall j :: 1 <= j < i ==> !EscPairAt(input, j)
      invariant shown == seq(i, j requires 0 <= j < i => Show(WaitKeyHw(input[j])))
    {
      var k := WaitKeyHw(input[i]);
      shown := shown + [Show(k)];
      if esc && k == ESC {
        assert EscPairAt(input, i);
        return shown, i + 1, true;
      }
      esc := k == ESC;
      i := i + 1;
    }
    return shown, |input|, false;
  }
}
