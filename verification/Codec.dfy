/** The two encodings of a key or a value in a dump: `dumpval` of mdbx_dump.c, and `unhex` and
    the decoding half of `readline` of mdbx_load.c. */
module Codec {
  import opened Octets

  // ---------- C arithmetic ----------

  /** Conversion to `int8_t`. */
  function Int8(x: int): int { (x + 128) % 256 - 128 }

  /** `x | 0x20` in two's complement. */
  function OrBit5(x: int): int { if (x / 32) % 2 == 1 then x else x + 32 }

  /** `(x >> 7) & mask` for an `int8_t`: the arithmetic shift spreads the sign bit. */
  function SignMask(x: int, mask: int): int { if x < 0 then mask else 0 }

  // ---------- characters ----------

  predicate IsPrint(c: Octet) { ' ' <= c <= '~' }

  predicate IsXDigit(c: Octet) { '0' <= c <= '9' || 'a' <= c <= 'f' || 'A' <= c <= 'F' }

  /** The value of a hexadecimal digit, as every C programmer reads it. */
  function DigitValue(c: Octet): (n: int)
    requires IsXDigit(c)
    ensures 0 <= n < 16
  {
    if c <= '9' then c as int - '0' as int
    else if c <= 'F' then c as int - 'A' as int + 10
    else c as int - 'a' as int + 10
  }

  /** `'0' + n + (((9 - n) >> 7) & alpha_offset)` with `alpha_offset == 39`. */
  function HexDigit(n: int): (c: Octet)
    requires 0 <= n < 16
    ensures IsXDigit(c) && DigitValue(c) == n
  {
    ('0' as int + n + SignMask(9 - n, 39)) as char
  }

  /** One nibble of `unhex`: `hi = (hi | 0x20) - 'a'; hi += 10 + ((hi >> 7) & 39);` */
  function UnhexNibble(c: Octet): (n: int)
    requires IsXDigit(c)
    ensures n == DigitValue(c)
  {
    var n := Int8(OrBit5(Int8(c as int)) - 'a' as int);
    Int8(n + 10 + SignMask(n, 39))
  }

  /** `(uint8_t)(hi << 4 | lo)` */
  function JoinNibbles(hi: int, lo: int): (c: Octet)
    requires 0 <= hi < 16 && 0 <= lo < 16
    ensures c as int == 16 * hi + lo
  {
    ((hi * 16 + lo) % 256) as char
  }

  function Unhex(hi: Octet, lo: Octet): (c: Octet)
    requires IsXDigit(hi) && IsXDigit(lo)
    ensures c as int == 16 * DigitValue(hi) + DigitValue(lo)
  {
    JoinNibbles(UnhexNibble(hi), UnhexNibble(lo))
  }

  // ---------- encoding ----------

  function EncodeByte(plain: bool, c: Octet): Bytes {
    var hex: Bytes := [HexDigit(c as int / 16), HexDigit(c as int % 16)];
    if !plain then hex
    else if IsPrint(c) && c != '\\' then [c]
    else "\\" + hex
  }

  function Encode(plain: bool, v: Bytes): Bytes {
    if v == [] then [] else EncodeByte(plain, v[0]) + Encode(plain, v[1..])
  }

  /** What `dumpval` prints. */
  function FieldText(plain: bool, v: Bytes): Bytes {
    " " + Encode(plain, v) + "\n"
  }

  // ---------- decoding ----------

  function Prepend(c: Octet, tail: Option<Bytes>): Option<Bytes> {
    match tail
    case None => None
    case Some(t) => Some([c] + t)
  }

  /** The first byte of an encoded line and the number of characters that stand for it. */
  function FirstUnit(plain: bool, line: Bytes): (u: Option<(Octet, nat)>)
    requires line != []
    ensures u.Some? ==> 1 <= u.value.1 <= |line|
  {
    if plain then
      if line[0] != '\\' then Some((line[0], 1))
      else if |line| >= 2 && line[1] == '\\' then Some(('\\', 2))
      else if |line| >= 3 && IsXDigit(line[1]) && IsXDigit(line[2]) then Some((Unhex(line[1], line[2]), 3))
      else None
    else
      if |line| >= 2 && IsXDigit(line[0]) && IsXDigit(line[1]) then Some((Unhex(line[0], line[1]), 2))
      else None
  }

  function Decode(plain: bool, line: Bytes): Option<Bytes> {
    if line == [] then Some([])
    else
      match FirstUnit(plain, line)
      case None => None
      case Some((c, k)) => Prepend(c, Decode(plain, line[k..]))
  }

  // ---------- round trip and consequences ----------

  /** Each byte survives its own encoding, whatever follows it. */
  lemma DecodeEncodedByte(plain: bool, c: Octet, rest: Bytes)
    ensures Decode(plain, EncodeByte(plain, c) + rest) == Prepend(c, Decode(plain, rest))
  {
    var e := EncodeByte(plain, c);
    assert (e + rest)[|e|..] == rest;
  }

  /** Decoding undoes encoding, for every byte string in both modes. */
  lemma {:induction false} DecodeEncode(plain: bool, v: Bytes)
    ensures Decode(plain, Encode(plain, v)) == Some(v)
  {
    if v != [] {
      DecodeEncodedByte(plain, v[0], Encode(plain, v[1..]));
      DecodeEncode(plain, v[1..]);
      assert [v[0]] + v[1..] == v;
    }
  }

  lemma EncodeInjective(plain: bool, v: Bytes, w: Bytes)
    requires Encode(plain, v) == Encode(plain, w)
    ensures v == w
  {
    DecodeEncode(plain, v);
    DecodeEncode(plain, w);
  }

  /** Encoded text is one line of printable characters: no newline and no NUL. */
  lemma {:induction false} EncodeIsPrintable(plain: bool, v: Bytes)
    ensures forall c :: c in Encode(plain, v) ==> IsPrint(c)
  {
    if v != [] {
      EncodeIsPrintable(plain, v[1..]);
    }
  }

  /** Encoded text starts with a space exactly when a printed value does. */
  lemma EncodeLeadingSpace(plain: bool, v: Bytes)
    ensures Encode(plain, v) != [] && Encode(plain, v)[0] == ' ' <==> plain && v != [] && v[0] == ' '
  {
  }

  // ---------- the accepted language ----------

  /** One unit of an encoded line. */
  datatype Token = Literal(c: Octet) | Doubled | Escaped(hi: Octet, lo: Octet)

  ghost predicate ValidToken(plain: bool, t: Token) {
    match t
    case Literal(c) => plain && c != '\\'
    case Doubled => plain
    case Escaped(hi, lo) => IsXDigit(hi) && IsXDigit(lo)
  }

  ghost predicate ValidTokens(plain: bool, ts: seq<Token>) {
    forall t :: t in ts ==> ValidToken(plain, t)
  }

  ghost function TokenText(plain: bool, t: Token): Bytes {
    match t
    case Literal(c) => [c]
    case Doubled => "\\\\"
    case Escaped(hi, lo) => if plain then ['\\', hi, lo] else [hi, lo]
  }

  ghost function TokenValue(plain: bool, t: Token): Octet
    requires ValidToken(plain, t)
  {
    match t
    case Literal(c) => c
    case Doubled => '\\'
    case Escaped(hi, lo) => Unhex(hi, lo)
  }

  ghost function TokensText(plain: bool, ts: seq<Token>): Bytes {
    if ts == [] then [] else TokenText(plain, ts[0]) + TokensText(plain, ts[1..])
  }

  ghost function TokensValue(plain: bool, ts: seq<Token>): Bytes
    requires ValidTokens(plain, ts)
  {
    if ts == [] then [] else [TokenValue(plain, ts[0])] + TokensValue(plain, ts[1..])
  }

  lemma {:induction false} DecodeTokens(plain: bool, ts: seq<Token>)
    requires ValidTokens(plain, ts)
    ensures Decode(plain, TokensText(plain, ts)) == Some(TokensValue(plain, ts))
  {
    if ts != [] {
      DecodeTokens(plain, ts[1..]);
      var e, rest := TokenText(plain, ts[0]), TokensText(plain, ts[1..]);
      assert ts[0] in ts;
      assert (e + rest)[|e|..] == rest;
    }
  }

  lemma FirstToken(plain: bool, line: Bytes) returns (t: Token, rest: Bytes)
    requires line != []
    ensures Decode(plain, line).Some? ==>
              && ValidToken(plain, t) && TokenText(plain, t) <= line && rest == line[|TokenText(plain, t)|..]
              && |rest| < |line| && Decode(plain, rest).Some?
  {
    t := if plain && line[0] != '\\' then Literal(line[0])
         else if plain && |line| >= 3 && line[1] != '\\' then Escaped(line[1], line[2])
         else if !plain && |line| >= 2 then Escaped(line[0], line[1])
         else Doubled;
    var k := |TokenText(plain, t)|;
    rest := if k <= |line| then line[k..] else [];
  }

  lemma TokensCons(plain: bool, t: Token, ts: seq<Token>, line: Bytes)
    requires ValidToken(plain, t) && ValidTokens(plain, ts) && TokenText(plain, t) <= line
    requires TokensText(plain, ts) == line[|TokenText(plain, t)|..]
    ensures ValidTokens(plain, [t] + ts) && TokensText(plain, [t] + ts) == line
  {
    assert ([t] + ts)[1..] == ts;
  }

  lemma {:induction false} TokensOf(plain: bool, line: Bytes) returns (ts: seq<Token>)
    requires Decode(plain, line).Some?
    ensures ValidTokens(plain, ts) && TokensText(plain, ts) == line
    decreases |line|
  {
    ts := [];
    if line != [] {
      var t, rest := FirstToken(plain, line);
      ts := TokensOf(plain, rest);
      TokensCons(plain, t, ts, line);
      ts := [t] + ts;
    }
  }

  /** The decoder accepts exactly the lines made of valid units, and returns what the units stand for. */
  lemma DecodeAcceptsExactly(plain: bool, line: Bytes, v: Bytes)
    ensures Decode(plain, line) == Some(v)
       <==> exists ts :: ValidTokens(plain, ts) && TokensText(plain, ts) == line && TokensValue(plain, ts) == v
  {
    if Decode(plain, line) == Some(v) {
      var ts := TokensOf(plain, line);
      DecodeTokens(plain, ts);
    }
    if ts :| ValidTokens(plain, ts) && TokensText(plain, ts) == line && TokensValue(plain, ts) == v {
      DecodeTokens(plain, ts);
    }
  }

  // ---------- the loops ----------

  /** Standard output. */
  class Output {
    var text: Bytes

    constructor ()
      ensures text == []
    {
      text := [];
    }

    method PutChar(c: Octet)
      modifies this
      ensures text == old(text) + [c]
    {
      text := text + [c];
    }

    method PutString(s: Bytes)
      modifies this
      ensures text == old(text) + s
    {
      text := text + s;
    }
  }

  /** One turn of the loop of `dumpval`. */
  method DumpByte(out: Output, plain: bool, c: Octet)
    modifies out
    ensures out.text == old(out.text) + EncodeByte(plain, c)
  {
    if plain {
      if IsPrint(c) && c != '\\' {
        out.PutChar(c);
        return;
      }
      out.PutChar('\\');
    }
    out.PutChar(HexDigit(c as int / 16));
    out.PutChar(HexDigit(c as int % 16));
  }

  lemma EncodeStep(plain: bool, v: Bytes, i: nat, done: Bytes)
    requires i < |v|
    ensures done + Encode(plain, v[i..]) == done + EncodeByte(plain, v[i]) + Encode(plain, v[i + 1..])
  {
    assert v[i..][0] == v[i] && v[i..][1..] == v[i + 1..];
  }

  method DumpVal(out: Output, plain: bool, v: Bytes)
    modifies out
    ensures out.text == old(out.text) + FieldText(plain, v)
  {
    out.PutChar(' ');
    ghost var goal := out.text + Encode(plain, v);
    assert v[0..] == v;
    var i := 0;
    while i < |v|
      invariant 0 <= i <= |v|
      invariant out.text + Encode(plain, v[i..]) == goal
    {
      EncodeStep(plain, v, i, out.text);
      DumpByte(out, plain, v[i]);
      i := i + 1;
    }
    assert v[i..] == [] && out.text + [] == out.text;
    out.PutChar('\n');
    ConcatKeepsFirst(old(out.text), " ", Encode(plain, v), "\n");
  }

  /** A line of odd length is never valid in hexadecimal mode. */
  lemma {:induction false} OddLength(line: Bytes)
    requires |line| % 2 == 1
    ensures Decode(false, line) == None
  {
    if |line| >= 2 {
      OddLength(line[2..]);
    }
  }

  /** `want` is what is already decoded followed by what is still to come. */
  ghost predicate Completes(head: Bytes, tail: Option<Bytes>, want: Option<Bytes>) {
    match tail
    case None => want == None
    case Some(t) => want.Some? && want.value == head + t
  }

  lemma DecodeStep(plain: bool, line: Bytes)
    requires line != []
    ensures var u := FirstUnit(plain, line);
            Decode(plain, line) == if u.None? then None else Prepend(u.value.0, Decode(plain, line[u.value.1..]))
  {
  }

  lemma CompletesStep(head: Bytes, c: Octet, tail: Option<Bytes>, want: Option<Bytes>)
    requires Completes(head, Prepend(c, tail), want)
    ensures Completes(head + [c], tail, want)
  {
  }

  /** One turn of the decoding loops of `readline`: read a unit at `r`, write its byte at `w <= r`. */
  method DecodeUnit(line: array<Octet>, end: nat, plain: bool, w0: nat, r0: nat)
    returns (ok: bool, w: nat, r: nat)
    requires w0 <= r0 < end < line.Length && line[end] == '\0'
    requires !plain ==> r0 + 2 <= end
    modifies line
    ensures ok <==> FirstUnit(plain, old(line[r0..end])).Some?
    ensures ok ==> w == w0 + 1 && FirstUnit(plain, old(line[r0..end])) == Some((line[w0], r - r0))
    ensures ok ==> w <= r <= end && (!plain ==> r == r0 + 2)
    ensures forall i :: 0 <= i < line.Length && i != w0 ==> line[i] == old(line[i])
    ensures !ok ==> unchanged(line)
  {
    w, r := w0, r0;
    if plain {
      if line[r] == '\\' {
        if line[r + 1] == '\\' {
          line[w] := '\\';
        } else {
          if r + 3 > end || !IsXDigit(line[r + 1]) || !IsXDigit(line[r + 2]) {
            return false, w, r;
          }
          r := r + 1;
          line[w] := Unhex(line[r], line[r + 1]);
        }
        w := w + 1;
        r := r + 2;
      } else {
        line[w] := line[r];
        w := w + 1;
        r := r + 1;
      }
    } else {
      if !IsXDigit(line[r]) || !IsXDigit(line[r + 1]) {
        return false, w, r;
      }
      line[w] := Unhex(line[r], line[r + 1]);
      w := w + 1;
      r := r + 2;
    }
    ok := true;
  }

  /** The same turn as a step of decoding `text`, the line before anything was written over it. */
  method DecodeTurn(line: array<Octet>, end: nat, plain: bool, w0: nat, r0: nat, ghost text: Bytes)
    returns (ok: bool, w: nat, r: nat)
    requires w0 <= r0 < end < line.Length && line[end] == '\0' && |text| == end && line[r0..end] == text[r0..]
    requires !plain ==> r0 + 2 <= end
    requires Completes(line[..w0], Decode(plain, text[r0..]), Decode(plain, text))
    modifies line
    ensures ok ==> w <= r <= end && r0 < r && (!plain ==> r == r0 + 2)
    ensures ok ==> Completes(line[..w], Decode(plain, text[r..]), Decode(plain, text))
    ensures ok ==> forall i :: r <= i < line.Length ==> line[i] == old(line[i])
    ensures !ok ==> Decode(plain, text) == None && unchanged(line)
  {
    ghost var head := line[..w0];
    DecodeStep(plain, text[r0..]);
    ok, w, r := DecodeUnit(line, end, plain, w0, r0);
    if ok {
      assert line[..w] == head + [line[w0]] && text[r..] == text[r0..][r - r0..];
      CompletesStep(head, line[w0], Decode(plain, text[r..]), Decode(plain, text));
    }
  }

  /** The decoding half of `readline`, writing the value over the line it reads: `w` never overtakes `r`,
      and everything from `r` on is still unread text. */
  method DecodeInPlace(line: array<Octet>, len: nat, plain: bool) returns (ok: bool, w: nat)
    requires len < line.Length && line[len] == '\0'
    modifies line
    ensures ok <==> Decode(plain, old(line[..len])).Some?
    ensures ok ==> w <= len && Some(line[..w]) == Decode(plain, old(line[..len]))
    ensures line[len..] == old(line[len..])
  {
    w := 0;
    var r := 0;
    var end := len;
    ghost var text, pairs: int := line[..len], len / 2;
    ok := plain || len % 2 == 0;
    if !ok {
      OddLength(text);
      return;
    }
    assert text[0..] == text;
    while r < end
      invariant 0 <= w <= r <= end
      invariant !plain ==> end - r == 2 * pairs
      invariant forall i :: r <= i < line.Length ==> line[i] == old(line[i])
      invariant Completes(line[..w], Decode(plain, text[r..]), Decode(plain, text))
    {
      assert line[r..end] == text[r..];
      pairs := pairs - 1;
      ok, w, r := DecodeTurn(line, end, plain, w, r, text);
      if !ok {
        return;
      }
    }
    assert text[r..] == [];
    assert line[..w] + [] == line[..w];
  }
}
