/** The VT100 function-key decoder of vt100.c (parse_function_keys): after
    an ESC has been read, it reads the rest of a control sequence (ECMA-48
    section 5.4, `ESC [` ...) or of a PF key (`ESC O` P..S) and dispatches
    at most one command. The keyboard is the sequence of bytes wait_key_hw
    will return; the decoder answers None when it would wait for a byte the
    sequence does not hold. */
module Vt100 {
  import opened Common

  const LB: byte := '[' as byte
  const CAP_O: byte := 'O' as byte

  /** The actions parse_function_keys can dispatch, NoCommand for none. */
  datatype Command = NoCommand | LineUp | LineDown | PageUp | PageDown | FirstFile | LastFile
                   | Copy | Delete | SelectFile | Help | ViewFile | DumpFile

  /** What one call does: the command dispatched, the number of bytes it
      read, and the value it returns (false: leave the key loop). */
  datatype Parsed = Parsed(cmd: Command, used: nat, loop: bool)

  function Ch(c: char): byte
    requires c as int < 256
  {
    c as byte
  }

  /** parse_function_keys(k) with `keys` as the bytes still to come. */
  function ParseFunctionKeys(k: byte, keys: seq<byte>): (r: Option<Parsed>)
    ensures r.Some? && r.value.cmd != NoCommand ==> r.value.loop && r.value.used >= 1
    ensures r.Some? && !r.value.loop ==> r.value.cmd == NoCommand && k == LB
  {
    if k == LB then
      if |keys| < 1 then None
      else
        var k2 := keys[0];
        if k2 == Ch('A') then Some(Parsed(LineUp, 1, true))
        else if k2 == Ch('B') then Some(Parsed(LineDown, 1, true))
        else if k2 == Ch('5') then
          if |keys| < 2 then None
          else if keys[1] == TILDE then Some(Parsed(PageUp, 2, true))
          else Some(Parsed(NoCommand, 2, true))
        else if k2 == Ch('6') then
          if |keys| < 2 then None
          else if keys[1] == TILDE then Some(Parsed(PageDown, 2, true))
          else Some(Parsed(NoCommand, 2, true))
        else if k2 == Ch('H') then Some(Parsed(FirstFile, 1, true))
        else if k2 == Ch('F') then Some(Parsed(LastFile, 1, true))
        else if k2 == Ch('1') then
          if |keys| < 2 then None
          else
            var k3 := keys[1];
            if k3 == Ch('5') then
              if |keys| < 3 then None
              else if keys[2] == TILDE then Some(Parsed(Copy, 3, true))
              else Some(Parsed(NoCommand, 3, true))
            else if k3 == Ch('9') then
              if |keys| < 3 then None
              else if keys[2] == TILDE then Some(Parsed(Delete, 3, true))
              else Some(Parsed(NoCommand, 3, true))
            else if Ch('5') < k3 < Ch('9') then
              if |keys| < 3 then None else Some(Parsed(NoCommand, 3, true))
            else Some(Parsed(NoCommand, 2, true))
        else if k2 == Ch('2') then
          if |keys| < 2 then None
          else
            var k3 := keys[1];
            if k3 == TILDE then Some(Parsed(SelectFile, 2, true))
            else if k3 == Ch('1') then
              if |keys| < 3 then None
              else if keys[2] == TILDE then Some(Parsed(NoCommand, 3, false))
              // `k == '1'` also passes the digit test below: one more byte is read
              else if |keys| < 4 then None
              else Some(Parsed(NoCommand, 4, true))
            else if Ch('0') <= k3 <= Ch('9') then
              if |keys| < 3 then None else Some(Parsed(NoCommand, 3, true))
            else Some(Parsed(NoCommand, 2, true))
        else Some(Parsed(NoCommand, 1, true))
    else if k == CAP_O then
      if |keys| < 1 then None
      else if keys[0] == Ch('P') then Some(Parsed(Help, 1, true))
      else if keys[0] == Ch('R') then Some(Parsed(ViewFile, 1, true))
      else if keys[0] == Ch('S') then Some(Parsed(DumpFile, 1, true))
      else Some(Parsed(NoCommand, 1, true))
    else Some(Parsed(NoCommand, 0, true))
  }

  /** The byte sequence after ESC that each command answers to. */
  function Code(cmd: Command): (c: seq<byte>)
    requires cmd != NoCommand
    ensures |c| >= 2
  {
    match cmd
    case LineUp => [LB, Ch('A')]
    case LineDown => [LB, Ch('B')]
    case PageUp => [LB, Ch('5'), TILDE]
    case PageDown => [LB, Ch('6'), TILDE]
    case FirstFile => [LB, Ch('H')]
    case LastFile => [LB, Ch('F')]
    case Copy => [LB, Ch('1'), Ch('5'), TILDE]
    case Delete => [LB, Ch('1'), Ch('9'), TILDE]
    case SelectFile => [LB, Ch('2'), TILDE]
    case Help => [CAP_O, Ch('P')]
    case ViewFile => [CAP_O, Ch('R')]
    case DumpFile => [CAP_O, Ch('S')]
  }

  /** F10, the sequence that ends the key loop. */
  const F10: seq<byte> := [LB, Ch('2'), Ch('1'), TILDE]

  /** A call reads at most four bytes after the one it is given, never more
      than there are, and waits only when fewer than four are left. */
  lemma ParseBounds(k: byte, keys: seq<byte>)
    ensures ParseFunctionKeys(k, keys).Some? ==>
      ParseFunctionKeys(k, keys).value.used <= 4 && ParseFunctionKeys(k, keys).value.used <= |keys|
    ensures |keys| >= 4 ==> ParseFunctionKeys(k, keys).Some?
  {
  }

  /** The decoder looks at no byte past those it consumes: what follows
      them does not change its answer. */
  lemma ParseReadsOnlyUsed(k: byte, keys: seq<byte>, rest: seq<byte>)
    requires ParseFunctionKeys(k, keys).Some?
    ensures ParseFunctionKeys(k, keys).value.used <= |keys|
    ensures ParseFunctionKeys(k, keys[..ParseFunctionKeys(k, keys).value.used] + rest) == ParseFunctionKeys(k, keys)
  {
    var u := ParseFunctionKeys(k, keys).value.used;
    var s := keys[..u] + rest;
    assert forall i :: 0 <= i < u ==> s[i] == keys[i];
  }

  /** Each command's code dispatches that command, reading exactly its
      code, whatever follows. */
  lemma CodeDispatches(cmd: Command, rest: seq<byte>)
    requires cmd != NoCommand
    ensures ParseFunctionKeys(Code(cmd)[0], Code(cmd)[1..] + rest) == Some(Parsed(cmd, |Code(cmd)| - 1, true))
  {
  }

  /** A command is dispatched only on its code. */
  lemma DispatchOnlyOnCode(k: byte, keys: seq<byte>)
    requires ParseFunctionKeys(k, keys).Some? && ParseFunctionKeys(k, keys).value.cmd != NoCommand
    ensures var p := ParseFunctionKeys(k, keys).value;
      p.used <= |keys| && [k] + keys[..p.used] == Code(p.cmd) && p.loop
  {
  }

  /** The call returns 0 (leave the loop) exactly on F10, and F10
      dispatches nothing. */
  lemma LoopEndsOnlyOnF10(k: byte, keys: seq<byte>)
    requires ParseFunctionKeys(k, keys).Some?
    ensures var p := ParseFunctionKeys(k, keys).value;
      !p.loop <==> (p.used == 3 && [k] + keys[..3] == F10)
    ensures !ParseFunctionKeys(k, keys).value.loop ==> ParseFunctionKeys(k, keys).value.cmd == NoCommand
  {
    var p := ParseFunctionKeys(k, keys).value;
    if p.used == 3 && [k] + keys[..3] == F10 {
      var s := [k] + keys[..3];
      assert k == s[0] == LB;
      assert keys[0] == s[1] && keys[1] == s[2] && keys[2] == s[3];
    }
  }

  /** After `[2 1` a byte other than '~' is followed by one more read, so
      `ESC [ 2 1 x` swallows the key after it. */
  lemma BracketTwoOneSwallowsNextKey(x: byte, y: byte, rest: seq<byte>)
    requires x != TILDE
    ensures ParseFunctionKeys(LB, [Ch('2'), Ch('1'), x, y] + rest) == Some(Parsed(NoCommand, 4, true))
  {
  }

  /** A page key whose second byte is not '~' consumes that byte and
      dispatches nothing; F6, F7 and the unknown `[1 x ~` codes are
      consumed with their '~'. */
  lemma IncompleteCodesConsumed(x: byte, d: byte, y: byte, rest: seq<byte>)
    requires x != TILDE
    ensures ParseFunctionKeys(LB, [Ch('5'), x] + rest) == Some(Parsed(NoCommand, 2, true))
    ensures ParseFunctionKeys(LB, [Ch('6'), x] + rest) == Some(Parsed(NoCommand, 2, true))
    ensures Ch('5') < d < Ch('9') ==> ParseFunctionKeys(LB, [Ch('1'), d, y] + rest) == Some(Parsed(NoCommand, 3, true))
  {
  }

  /** A first byte other than '[' or 'O' reads nothing and dispatches nothing. */
  lemma OtherFirstByteIgnored(k: byte, keys: seq<byte>)
    requires k != LB && k != CAP_O
    ensures ParseFunctionKeys(k, keys) == Some(Parsed(NoCommand, 0, true))
  {
  }
}
