/** `readline` of mdbx_load.c: framing, the repeat marker with its one-character pushback,
    and the buffer that doubles while a line is being read. */
module LineReader {
  import opened Octets
  import opened Codec

  // ---------- stdio ----------

  /** What `fgets` takes from the input when it has room for `n` characters, the NUL included. */
  function Chunk(s: Bytes, n: nat): (c: Bytes)
    requires n >= 2
    ensures c <= s && |c| < n
    ensures s != [] ==> c != []
  {
    var k := IndexOf('\n', s);
    var line := if k < |s| then k + 1 else |s|;
    s[..if line < n then line else n - 1]
  }

  /** Standard input: the characters not yet consumed. */
  class Stdin {
    var rest: Bytes

    constructor (text: Bytes)
      ensures rest == text
    {
      rest := text;
    }

    method Fgetc() returns (c: Option<Octet>)
      modifies this
      ensures old(rest) == [] ==> c == None && rest == []
      ensures old(rest) != [] ==> c == Some(old(rest)[0]) && rest == old(rest)[1..]
    {
      if rest == [] {
        return None;
      }
      c := Some(rest[0]);
      rest := rest[1..];
    }

    method Ungetc(c: Octet)
      modifies this
      ensures rest == [c] + old(rest)
    {
      rest := [c] + rest;
    }

    method Fgets(line: array<Octet>, at: nat, n: nat) returns (ok: bool)
      requires n >= 2 && at + n <= line.Length
      modifies this, line
      ensures ok <==> old(rest) != []
      ensures ok ==> var c := Chunk(old(rest), n);
                     rest == old(rest)[|c|..] && line[at..at + |c|] == c && line[at + |c|] == '\0'
      ensures line[..at] == old(line[..at])
      ensures !ok ==> rest == [] && unchanged(line)
    {
      if rest == [] {
        return false;
      }
      var c := Chunk(rest, n);
      forall i | 0 <= i < |c| {
        line[at + i] := c[i];
      }
      line[at + |c|] := '\0';
      rest := rest[|c|..];
      ok := true;
    }
  }

  /** `MDBX_val`: a memory block and a length. As a line buffer, the length is the capacity. */
  class Val {
    var base: array<Octet>
    var len: nat

    constructor (capacity: nat)
      ensures fresh(base) && len == base.Length == capacity
    {
      base := new Octet[capacity](_ => '\0');
      len := capacity;
    }

    ghost predicate IsBuffer()
      reads this
    {
      len == base.Length >= 3
    }

    ghost function Contents(): Bytes
      reads this, base
      requires len <= base.Length
    {
      base[..len]
    }
  }

  // ---------- what readline does, on values ----------

  datatype Status = Success | EndOfFile | NoData

  /** `out == None` stands for an untouched output value, `cap` for the capacity of the line buffer. */
  datatype LineResult = LineResult(status: Status, out: Option<Bytes>, rest: Bytes, cap: nat)

  /** The doubling loop: the whole line, newline included, or None when the input ends before it. */
  function Grow(line: Bytes, rest: Bytes, cap: nat): (Option<Bytes>, Bytes, nat)
    requires 0 < |line| < cap
    decreases |rest|
  {
    if line[|line| - 1] == '\n' then (Some(line), rest, cap)
    else if rest == [] then (None, rest, 2 * cap)
    else
      var chunk := Chunk(rest, 2 * cap - |line|);
      Grow(line + CString(chunk), rest[|chunk|..], 2 * cap)
  }

  function Finish(plain: bool, full: Option<Bytes>, rest: Bytes, cap: nat): LineResult {
    match full
    case None => LineResult(EndOfFile, None, rest, cap)
    case Some(line) =>
      match Decode(plain, if line == [] then [] else line[..|line| - 1])
      case None => LineResult(NoData, None, rest, cap)
      case Some(v) => LineResult(Success, Some(v), rest, cap)
  }

  /** The whole line that starts with `c`, already consumed: newline included, or empty after a NUL. */
  function Frame(c: Octet, s: Bytes, cap: nat): (Option<Bytes>, Bytes, nat)
    requires cap >= 3
  {
    if c != '\n' && s == [] then (None, [], cap)
    else
      var chunk := if c == '\n' then [] else Chunk(s, cap - 1);
      var line, rest := CString([c] + chunk), s[|chunk|..];
      if line == [] then (Some([]), rest, cap) else Grow(line, rest, cap)
  }

  function ReadText(plain: bool, c: Octet, s: Bytes, cap: nat): LineResult
    requires cap >= 3
  {
    var (full, rest, cap') := Frame(c, s, cap);
    Finish(plain, full, rest, cap')
  }

  /** `readline` after the leading space. */
  function ReadBody(plain: bool, s: Bytes, cap: nat): LineResult
    requires cap >= 3
  {
    if s == [] then LineResult(EndOfFile, None, [], cap)
    else if s[0] == ' ' then LineResult(Success, None, s, cap)
    else ReadText(plain, s[0], s[1..], cap)
  }

  const DATA_END: Bytes := "ATA=END"

  function ReadLine(plain: bool, nohdr: bool, s: Bytes, cap: nat): LineResult
    requires cap >= 3
  {
    if nohdr then ReadBody(plain, s, cap)
    else if s == [] then LineResult(EndOfFile, None, [], cap)
    else if s[0] == ' ' then ReadBody(plain, s[1..], cap)
    else
      var chunk := Chunk(s[1..], cap);
      LineResult(if s[0] == 'D' && DATA_END <= chunk then EndOfFile else NoData, None, s[1 + |chunk|..], cap)
  }

  // ---------- the loop ----------

  method Realloc(line: array<Octet>, size: nat) returns (a: array<Octet>)
    requires size >= line.Length
    ensures fresh(a) && a.Length == size
    ensures a[..line.Length] == line[..]
  {
    a := new Octet[size](_ => '\0');
    forall i | 0 <= i < line.Length {
      a[i] := line[i];
    }
  }

  /** `strlen`, for a block known to hold a NUL. */
  method Strlen(line: array<Octet>, at: nat) returns (n: nat)
    requires exists i :: at <= i < line.Length && line[i] == '\0'
    ensures at + n < line.Length && line[at + n] == '\0'
    ensures '\0' !in line[at..at + n]
  {
    n := 0;
    while line[at + n] != '\0'
      invariant at + n < line.Length
      invariant '\0' !in line[at..at + n]
      invariant exists i :: at + n <= i < line.Length && line[i] == '\0'
      decreases line.Length - n
    {
      n := n + 1;
    }
  }

  lemma StrlenOfChunk(mem: Bytes, c: Bytes, n: nat)
    requires |c| < |mem| && mem[..|c|] == c && mem[|c|] == '\0'
    requires n < |mem| && mem[n] == '\0' && '\0' !in mem[..n]
    ensures CString(c) == mem[..n]
  {
    assert forall i :: 0 <= i < n ==> mem[i] == mem[..n][i];
    assert n <= |c| && mem[..n] == c[..n];
    IndexOfUnique('\0', c, n);
  }

  /** `fgets` followed by `strlen`: the line gains the text before the first NUL of the chunk. */
  method ReadMore(stdin: Stdin, line: array<Octet>, at: nat, n: nat) returns (ok: bool, len: nat)
    requires n >= 2 && at + n <= line.Length
    modifies stdin, line
    ensures ok <==> old(stdin.rest) != []
    ensures ok ==> var c := Chunk(old(stdin.rest), n);
                   stdin.rest == old(stdin.rest)[|c|..] &&
                   at + len < line.Length && line[at + len] == '\0' &&
                   line[..at + len] == old(line[..at]) + CString(c)
    ensures !ok ==> stdin.rest == []
  {
    len := 0;
    ok := stdin.Fgets(line, at, n);
    if ok {
      ghost var c := Chunk(old(stdin.rest), n);
      assert line[at + |c|] == '\0';
      len := Strlen(line, at);
      StrlenOfChunk(line[at..], c, len);
    }
  }

  /** One turn of the doubling loop: what was already read is preserved across the doubling. */
  method GrowOnce(stdin: Stdin, buf: Val, len0: nat) returns (ok: bool, len: nat)
    requires buf.IsBuffer() && 0 < len0 < buf.len
    modifies stdin, buf, buf.base
    ensures buf.IsBuffer() && fresh(buf.base) && buf.len == 2 * old(buf.len)
    ensures ok <==> old(stdin.rest) != []
    ensures ok ==> var c := Chunk(old(stdin.rest), 2 * old(buf.len) - len0);
                   stdin.rest == old(stdin.rest)[|c|..] && 0 < len < buf.len &&
                   buf.base[..len] == old(buf.base[..len0]) + CString(c) && buf.base[len] == '\0'
    ensures !ok ==> stdin.rest == []
  {
    ghost var text := buf.base[..len0];
    var line := Realloc(buf.base, 2 * buf.len);
    assert line[..len0] == text;
    buf.base, buf.len := line, 2 * buf.len;
    ok, len := ReadMore(stdin, line, len0, buf.len - len0);
    len := len0 + len;
  }

  lemma GrowStep(line: Bytes, rest: Bytes, cap: nat, longer: Bytes, rest': Bytes)
    requires 0 < |line| < cap && line[|line| - 1] != '\n' && rest != []
    requires var c := Chunk(rest, 2 * cap - |line|); longer == line + CString(c) && rest' == rest[|c|..]
    ensures Grow(line, rest, cap) == Grow(longer, rest', 2 * cap)
  {
  }

  /** The doubling loop. */
  method GrowLine(stdin: Stdin, buf: Val, len0: nat) returns (ok: bool, len: nat)
    requires buf.IsBuffer()
    requires 0 < len0 < buf.len && buf.base[len0] == '\0'
    modifies stdin, buf, buf.base
    ensures buf.IsBuffer() && (buf.base == old(buf.base) || fresh(buf.base))
    ensures var (full, rest, cap) := Grow(old(buf.base[..len0]), old(stdin.rest), old(buf.len));
            ok == full.Some? && stdin.rest == rest && buf.len == cap &&
            (ok ==> 0 < len < buf.len && buf.base[..len] == full.value && buf.base[len] == '\0')
  {
    len := len0;
    ok := true;
    ghost var line, rest, cap := buf.base[..len], stdin.rest, buf.len;
    ghost var goal := Grow(line, rest, cap);
    while buf.base[len - 1] != '\n'
      invariant buf.IsBuffer() && (buf.base == old(buf.base) || fresh(buf.base))
      invariant 0 < len < buf.len && buf.base[len] == '\0'
      invariant line == buf.base[..len] && rest == stdin.rest && cap == buf.len
      invariant Grow(line, rest, cap) == goal
      decreases |stdin.rest|
    {
      assert line[len - 1] != '\n';
      ok, len := GrowOnce(stdin, buf, len);
      if !ok {
        return;
      }
      ghost var line', rest', cap' := buf.base[..len], stdin.rest, buf.len;
      assert Grow(line, rest, cap) == Grow(line', rest', cap') by {
        GrowStep(line, rest, cap, line', rest');
      }
      line, rest, cap := line', rest', cap';
    }
  }

  /** `out` now holds the value that was read, in the line buffer itself. */
  ghost predicate Delivered(r: LineResult, out: Val, buf: Val)
    reads out, buf, out.base
  {
    r.out.Some? && out.base == buf.base && out.len <= out.base.Length && out.Contents() == r.out.value
  }

  /** From the stripped line to the value: the tail of `readline`. */
  method FinishLine(plain: bool, out: Val, buf: Val, len0: nat, ghost r: LineResult) returns (err: Status)
    requires buf.IsBuffer() && out != buf
    requires len0 < buf.len && buf.base[len0] == '\0'
    requires r == Finish(plain, Some(buf.base[..len0]), r.rest, r.cap)
    modifies out, buf.base
    ensures err == r.status
    ensures err == Success ==> Delivered(r, out, buf)
    ensures err != Success ==> unchanged(out)
  {
    var len := len0;
    if len > 0 {
      len := len - 1;
      buf.base[len] := '\0';
    }
    assert buf.base[..len] == if len0 == 0 then [] else old(buf.base[..len0])[..len0 - 1];
    var ok, w := DecodeInPlace(buf.base, len, plain);
    if !ok {
      return NoData;
    }
    out.base, out.len := buf.base, w;
    err := Success;
  }

  /** The first `fgets` of a line that starts with `c`, and its `strlen`. */
  method ReadFirst(stdin: Stdin, line: array<Octet>, c: Octet) returns (ok: bool, len: nat)
    requires line.Length >= 3
    modifies stdin, line
    ensures ok <==> c == '\n' || old(stdin.rest) != []
    ensures ok ==> var chunk := if c == '\n' then [] else Chunk(old(stdin.rest), line.Length - 1);
                   stdin.rest == old(stdin.rest)[|chunk|..] &&
                   len < line.Length && line[len] == '\0' && line[..len] == CString([c] + chunk)
    ensures !ok ==> stdin.rest == []
  {
    line[0], line[1] := c, '\0';
    ghost var chunk: Bytes := [];
    len := 0;
    ok := true;
    if c != '\n' {
      chunk := Chunk(stdin.rest, line.Length - 1);
      ok := stdin.Fgets(line, 1, line.Length - 1);
      if !ok {
        return;
      }
      assert line[..1][0] == c;
    }
    assert line[..1 + |chunk|] == [c] + chunk && line[1 + |chunk|] == '\0';
    len := Strlen(line, 0);
    StrlenOfChunk(line[..], [c] + chunk, len);
    assert line[..][..len] == line[..len];
  }

  lemma FrameGrows(c: Octet, s: Bytes, cap: nat, line: Bytes, rest: Bytes)
    requires cap >= 3 && 0 < |line| < cap && (c == '\n' || s != [])
    requires var chunk := if c == '\n' then [] else Chunk(s, cap - 1);
             line == CString([c] + chunk) && rest == s[|chunk|..]
    ensures Frame(c, s, cap) == Grow(line, rest, cap)
  {
  }

  method FrameLine(stdin: Stdin, c: Octet, buf: Val) returns (ok: bool, len: nat)
    requires buf.IsBuffer()
    modifies stdin, buf, buf.base
    ensures buf.IsBuffer() && (buf.base == old(buf.base) || fresh(buf.base))
    ensures var (full, rest, cap) := Frame(c, old(stdin.rest), old(buf.len));
            ok == full.Some? && stdin.rest == rest && buf.len == cap &&
            (ok ==> len < buf.len && buf.base[..len] == full.value && buf.base[len] == '\0')
  {
    ghost var s, cap := stdin.rest, buf.len;
    ok, len := ReadFirst(stdin, buf.base, c);
    if ok && len > 0 {
      FrameGrows(c, s, cap, buf.base[..len], stdin.rest);
      ok, len := GrowLine(stdin, buf, len);
    }
  }

  method ReadlineText(stdin: Stdin, plain: bool, c: Octet, out: Val, buf: Val) returns (err: Status)
    requires buf.IsBuffer() && out != buf
    modifies stdin, out, buf, buf.base
    ensures buf.IsBuffer() && (buf.base == old(buf.base) || fresh(buf.base))
    ensures var r := ReadText(plain, c, old(stdin.rest), old(buf.len));
            err == r.status && stdin.rest == r.rest && buf.len == r.cap &&
            (err == Success ==> Delivered(r, out, buf)) && (err != Success ==> unchanged(out))
  {
    ghost var (full, rest, cap) := Frame(c, stdin.rest, buf.len);
    ghost var r := Finish(plain, full, rest, cap);
    var ok, len := FrameLine(stdin, c, buf);
    if !ok {
      assert full == None;
      return EndOfFile;
    }
    assert full == Some(buf.base[..len]);
    err := FinishLine(plain, out, buf, len, r);
  }

  method Readline(stdin: Stdin, plain: bool, nohdr: bool, out: Val, buf: Val) returns (err: Status)
    requires buf.IsBuffer() && out != buf
    modifies stdin, out, buf, buf.base
    ensures buf.IsBuffer() && (buf.base == old(buf.base) || fresh(buf.base))
    ensures var r := ReadLine(plain, nohdr, old(stdin.rest), old(buf.len));
            err == r.status && stdin.rest == r.rest && buf.len == r.cap &&
            (err == Success && r.out == None ==> unchanged(out) && unchanged(buf) && unchanged(buf.base)) &&
            (err == Success && r.out != None ==> Delivered(r, out, buf)) && (err != Success ==> unchanged(out))
  {
    if !nohdr {
      var c := stdin.Fgetc();
      if c == None {
        return EndOfFile;
      }
      if c.value != ' ' {
        var ok := stdin.Fgets(buf.base, 0, buf.len);
        if ok && c.value == 'D' && |DATA_END| < buf.len && buf.base[..|DATA_END|] == DATA_END {
          return EndOfFile;
        }
        return NoData;
      }
    }
    var c := stdin.Fgetc();
    if c == None {
      return EndOfFile;
    }
    if c.value == ' ' {
      stdin.Ungetc(c.value);
      return Success;
    }
    err := ReadlineText(stdin, plain, c.value, out, buf);
  }
}
