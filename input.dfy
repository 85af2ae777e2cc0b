/**
 * The key decoder: the bytes of one terminal `data` event become the game's keys, in order.
 * Control-C, space and five lowercase letters are single bytes; the arrows are the three-byte
 * sequences ESC `[` A/B/C/D; every other byte is ignored.
 */
module Input {

  /** One byte of the input buffer. */
  newtype Byte = b: int | 0 <= b < 0x100

  const CtrlCByte: Byte := 0x03
  const EscByte: Byte := 0x1b
  const BracketByte: Byte := 0x5b
  const SpaceByte: Byte := 0x20

  /** The keys the game reacts to. */
  datatype Key = Left | Right | Up | Down | Z | X | C | Space | P | Q | CtrlC

  /** The final byte of ESC `[` X: A, B, C and D are the arrows, anything else is no key. */
  function ArrowKey(b: Byte): seq<Key>
  {
    if b == 0x41 then [Up]
    else if b == 0x42 then [Down]
    else if b == 0x43 then [Right]
    else if b == 0x44 then [Left]
    else []
  }

  /** A lowercase letter: z, x, c, p and q are keys, the other letters are not. */
  function LetterKey(b: Byte): seq<Key>
  {
    if b == 0x7a then [Z]
    else if b == 0x78 then [X]
    else if b == 0x63 then [C]
    else if b == 0x70 then [P]
    else if b == 0x71 then [Q]
    else []
  }

  /** A byte other than ESC, decoded on its own. */
  function ByteKey(b: Byte): seq<Key>
  {
    if b == CtrlCByte then [CtrlC]
    else if b == SpaceByte then [Space]
    else if 0x61 <= b <= 0x7a then LetterKey(b)
    else []
  }

  /** Whether the buffer starts with a complete escape sequence ESC `[` X. */
  predicate EscapeAhead(buf: seq<Byte>)
  {
    |buf| > 2 && buf[0] == EscByte && buf[1] == BracketByte
  }

  /** The bytes the first token of a buffer takes: three for ESC `[` X, one otherwise. */
  function TokenWidth(buf: seq<Byte>): (n: nat)
    requires |buf| > 0
    ensures 1 <= n <= |buf|
  {
    if EscapeAhead(buf) then 3 else 1
  }

  /** The keys of the first token: an arrow, a single-byte key, or nothing (an ESC on its own). */
  function TokenKeys(buf: seq<Byte>): seq<Key>
    requires |buf| > 0
  {
    if EscapeAhead(buf) then ArrowKey(buf[2])
    else if buf[0] == EscByte then []
    else ByteKey(buf[0])
  }

  /** The keys of a buffer, token by token from the front. */
  function DecodeBytes(buf: seq<Byte>): seq<Key>
    decreases |buf|
  {
    if |buf| == 0 then [] else TokenKeys(buf) + DecodeBytes(buf[TokenWidth(buf)..])
  }

  /** `decode`: the walk over the buffer, with the index jumping over a complete escape sequence. */
  method Decode(buf: seq<Byte>) returns (out: seq<Key>)
    ensures out == DecodeBytes(buf)
  {
    out := [];
    var i := 0;
    while i < |buf|
      invariant 0 <= i <= |buf|
      invariant out + DecodeBytes(buf[i..]) == DecodeBytes(buf)
    {
      var b := buf[i];
      var keys: seq<Key> := [];
      var skip := 0;
      if b == CtrlCByte {
        keys := [CtrlC];
      } else if b == EscByte {
        if i + 1 < |buf| && buf[i + 1] == BracketByte && i + 2 < |buf| {
          var b2 := buf[i + 2];
          if b2 == 0x41 {
            keys := [Up];
          } else if b2 == 0x42 {
            keys := [Down];
          } else if b2 == 0x43 {
            keys := [Right];
          } else if b2 == 0x44 {
            keys := [Left];
          }
          skip := 2;
        }
      } else if b == SpaceByte {
        keys := [Space];
      } else if 0x61 <= b <= 0x7a {
        if b == 0x7a {
          keys := [Z];
        } else if b == 0x78 {
          keys := [X];
        } else if b == 0x63 {
          keys := [C];
        } else if b == 0x70 {
          keys := [P];
        } else if b == 0x71 {
          keys := [Q];
        }
      }
      DecodeAt(buf, i, out, keys, skip);
      out := out + keys;
      i := i + skip + 1;
    }
  }

  /** One step of `Decode`: the token at `i` yields `keys` and takes `skip + 1` bytes. */
  lemma DecodeAt(buf: seq<Byte>, i: nat, out: seq<Key>, keys: seq<Key>, skip: nat)
    requires i < |buf| && out + DecodeBytes(buf[i..]) == DecodeBytes(buf)
    requires keys == TokenKeys(buf[i..]) && skip + 1 == TokenWidth(buf[i..])
    ensures i + skip + 1 <= |buf|
    ensures (out + keys) + DecodeBytes(buf[i + skip + 1..]) == DecodeBytes(buf)
  {
    assert buf[i..][skip + 1..] == buf[i + skip + 1..];
    var rest := DecodeBytes(buf[i + skip + 1..]);
    assert DecodeBytes(buf[i..]) == keys + rest;
    assert (out + keys) + rest == out + (keys + rest);
  }

  // ---------------------------------------------------------------------------------------
  // Properties

  /** The bytes a terminal sends for each key. */
  function KeyBytes(k: Key): seq<Byte>
  {
    match k
    case Up => [EscByte, BracketByte, 0x41]
    case Down => [EscByte, BracketByte, 0x42]
    case Right => [EscByte, BracketByte, 0x43]
    case Left => [EscByte, BracketByte, 0x44]
    case Z => [0x7a]
    case X => [0x78]
    case C => [0x63]
    case P => [0x70]
    case Q => [0x71]
    case Space => [SpaceByte]
    case CtrlC => [CtrlCByte]
  }

  function Encode(keys: seq<Key>): seq<Byte>
    decreases |keys|
  {
    if |keys| == 0 then [] else KeyBytes(keys[0]) + Encode(keys[1..])
  }

  /** The bytes of a key decode to that key, whatever follows them. */
  lemma KeyDecodes(k: Key, rest: seq<Byte>)
    ensures DecodeBytes(KeyBytes(k) + rest) == [k] + DecodeBytes(rest)
  {
    var buf := KeyBytes(k) + rest;
    if |KeyBytes(k)| == 3 {
      assert buf[3..] == rest;
    } else {
      assert buf[1..] == rest;
    }
  }

  /** Decoding the bytes of a key sequence gives the keys back, in order. */
  lemma {:induction false} DecodeEncode(keys: seq<Key>)
    ensures DecodeBytes(Encode(keys)) == keys
    decreases |keys|
  {
    if |keys| > 0 {
      KeyDecodes(keys[0], Encode(keys[1..]));
      DecodeEncode(keys[1..]);
    }
  }

  /** A byte that is no key and does not start an escape sequence. */
  predicate Ignored(b: Byte)
  {
    b != CtrlCByte && b != EscByte && b != SpaceByte &&
    b != 0x7a && b != 0x78 && b != 0x63 && b != 0x70 && b != 0x71
  }

  /** An ignored byte yields nothing and leaves the bytes after it to decode as usual. */
  lemma IgnoredByte(b: Byte, rest: seq<Byte>)
    requires Ignored(b)
    ensures DecodeBytes([b] + rest) == DecodeBytes(rest)
  {
    assert ([b] + rest)[1..] == rest;
  }

  /** ESC `[` with any third byte consumes all three; a third byte other than A-D yields nothing. */
  lemma EscapeSequence(b: Byte, rest: seq<Byte>)
    ensures DecodeBytes([EscByte, BracketByte, b] + rest) == ArrowKey(b) + DecodeBytes(rest)
    ensures (b < 0x41 || b > 0x44) ==> DecodeBytes([EscByte, BracketByte, b] + rest) == DecodeBytes(rest)
  {
    assert ([EscByte, BracketByte, b] + rest)[3..] == rest;
  }

  /** An ESC that does not begin ESC `[` X is skipped alone: what follows decodes normally. */
  lemma LoneEscape(rest: seq<Byte>)
    requires !(|rest| > 1 && rest[0] == BracketByte)
    ensures DecodeBytes([EscByte] + rest) == DecodeBytes(rest)
  {
    assert ([EscByte] + rest)[1..] == rest;
  }

  /** Every byte yields at most one key, and an escape sequence one key for three bytes. */
  lemma {:induction false} DecodeShorter(buf: seq<Byte>)
    ensures |DecodeBytes(buf)| <= |buf|
    decreases |buf|
  {
    if |buf| > 0 {
      DecodeShorter(buf[TokenWidth(buf)..]);
    }
  }

  /** No escape sequence is left open in the last two bytes. */
  predicate Closed(a: seq<Byte>)
  {
    forall j :: 0 <= j < |a| && |a| <= j + 2 ==> a[j] != EscByte
  }

  /**
   * Bytes decode in order: a buffer cut where no escape sequence is open decodes as its two
   * parts, one after the other.
   */
  lemma {:induction false} DecodeAppend(a: seq<Byte>, b: seq<Byte>)
    requires Closed(a)
    ensures DecodeBytes(a + b) == DecodeBytes(a) + DecodeBytes(b)
    decreases |a|
  {
    if |a| == 0 {
      assert a + b == b;
    } else {
      var w := TokenSame(a, b);
      DecodeAppend(a[w..], b);
    }
  }

  /** The first token of a closed buffer is the same whatever follows it. */
  lemma TokenSame(a: seq<Byte>, b: seq<Byte>) returns (w: nat)
    requires Closed(a) && |a| > 0
    ensures w == TokenWidth(a) == TokenWidth(a + b) && TokenKeys(a) == TokenKeys(a + b)
    ensures (a + b)[w..] == a[w..] + b && Closed(a[w..])
  {
    w := TokenWidth(a);
    if a[0] == EscByte {
      assert |a| > 2;
    }
    assert (a + b)[w..] == a[w..] + b;
    forall j | 0 <= j < |a[w..]| && |a[w..]| <= j + 2
      ensures a[w..][j] != EscByte
    {
      assert a[w..][j] == a[j + w];
    }
  }

  /**
   * Each `data` event is decoded on its own, so an arrow whose bytes arrive in two events is
   * lost: ESC alone, then `[` A, yield nothing, while the three bytes together are `up`.
   */
  lemma SplitArrowLost()
    ensures DecodeBytes([EscByte]) + DecodeBytes([BracketByte, 0x41]) == []
    ensures DecodeBytes([EscByte, BracketByte, 0x41]) == [Up]
  {
    var tail: seq<Byte> := [0x41];
    assert [BracketByte, 0x41][1..] == tail;
    assert tail[1..] == [];
    assert [EscByte, BracketByte, 0x41][3..] == [];
  }
}
