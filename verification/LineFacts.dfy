/** What `readline` promises about the lines that `dumpval` prints, and about any text at all. */
module LineFacts {
  import opened Octets
  import opened Codec
  import opened LineReader

  // ---------- any line, any buffer ----------

  /** The first newline of `s` is at `n`, and no NUL comes before it. */
  ghost predicate LineEnd(s: Bytes, n: nat) {
    n < |s| && s[n] == '\n' && '\n' !in s[..n] && '\0' !in s[..n]
  }

  /** A chunk of a line without NUL is that line's next stretch, read as it is. */
  lemma ChunkOfLine(s: Bytes, k: nat, n: nat, room: nat)
    requires LineEnd(s, n) && k <= n && room >= 2
    ensures var c := Chunk(s[k..], room);
            CString(c) == c && k < k + |c| <= n + 1 && c == s[k..k + |c|]
  {
    var c := Chunk(s[k..], room);
    assert s[k..][..n - k] == s[..n][k..];
    IndexOfUnique('\n', s[k..], n - k);
    assert c == s[k..k + |c|];
    assert forall i :: 0 <= i < |c| ==> c[i] == s[k + i] && (k + i < n ==> s[k + i] in s[..n]);
    CStringIsWhole(c);
  }

  /** A turn of the doubling loop moves along the line. */
  lemma GrowTurn(s: Bytes, k: nat, n: nat, cap: nat) returns (j: nat)
    requires LineEnd(s, n) && 0 < k <= n && k < cap
    ensures k < j <= n + 1 && j < 2 * cap
    ensures Grow(s[..k], s[k..], cap) == Grow(s[..j], s[j..], 2 * cap)
  {
    assert s[..k][k - 1] in s[..n];
    var c := Chunk(s[k..], 2 * cap - k);
    ChunkOfLine(s, k, n, 2 * cap - k);
    j := k + |c|;
    assert s[..k] + c == s[..j] && s[k..][|c|..] == s[j..];
    GrowStep(s[..k], s[k..], cap, s[..j], s[j..]);
  }

  /** The doubling loop returns the whole line, whatever the capacity, and leaves what follows it. */
  lemma {:induction false} GrowWholeLine(s: Bytes, k: nat, n: nat, cap: nat) returns (cap': nat)
    requires LineEnd(s, n) && 0 < k <= n + 1 && k < cap
    ensures Grow(s[..k], s[k..], cap) == (Some(s[..n + 1]), s[n + 1..], cap') && cap' >= cap
    decreases |s| - k
  {
    if k == n + 1 {
      cap' := cap;
    } else {
      var j := GrowTurn(s, k, n, cap);
      cap' := GrowWholeLine(s, j, n, 2 * cap);
    }
  }

  lemma FrameWholeLine(s: Bytes, n: nat, cap: nat) returns (cap': nat)
    requires cap >= 3 && LineEnd(s, n)
    ensures Frame(s[0], s[1..], cap) == (Some(s[..n + 1]), s[n + 1..], cap') && cap' >= cap
  {
    var chunk: Bytes := [];
    if n > 0 {
      assert s[0] == s[..n][0];
      chunk := Chunk(s[1..], cap - 1);
      ChunkOfLine(s, 1, n, cap - 1);
    }
    var line := [s[0]] + chunk;
    assert line == s[..|line|] && s[1..][|chunk|..] == s[|line|..];
    assert forall i :: 0 <= i < |line| ==> i < n ==> s[i] in s[..n];
    CStringIsWhole(line);
    cap' := GrowWholeLine(s, |line|, n, cap);
  }

  /** One line in, one value out: the result depends on the line alone, not on the buffer it is read with. */
  lemma ReadOneLine(plain: bool, body: Bytes, tail: Bytes, cap: nat)
    requires cap >= 3 && '\n' !in body && '\0' !in body
    requires body != [] ==> body[0] != ' '
    ensures var r := ReadLine(plain, false, " " + body + "\n" + tail, cap);
            r.cap >= cap && r.rest == tail && r.out == Decode(plain, body) &&
            r.status == if r.out.Some? then Success else NoData
  {
    var s := body + "\n" + tail;
    assert (" " + body + "\n" + tail)[1..] == s;
    assert s[..|body|] == body && s[..|body| + 1][..|body|] == body && s[|body| + 1..] == tail;
    var _ := FrameWholeLine(s, |body|, cap);
  }

  // ---------- dumped lines ----------

  predicate StartsWithSpace(v: Bytes) { v != [] && v[0] == ' ' }

  /** What the loader can get back: any value in bytevalue mode, and in print mode one that does not start
      with the character that marks a repeated value. */
  predicate Restorable(plain: bool, v: Bytes) { plain ==> !StartsWithSpace(v) }

  /** A dumped field is read back exactly, and consumes exactly its own line. */
  lemma ReadField(plain: bool, v: Bytes, tail: Bytes, cap: nat)
    requires cap >= 3 && Restorable(plain, v)
    ensures var r := ReadLine(plain, false, FieldText(plain, v) + tail, cap);
            r.status == Success && r.out == Some(v) && r.rest == tail && r.cap >= cap
  {
    var body := Encode(plain, v);
    EncodeIsPrintable(plain, v);
    EncodeLeadingSpace(plain, v);
    DecodeEncode(plain, v);
    ReadOneLine(plain, body, tail, cap);
  }

  /** A printed value that starts with a space is taken for a repeat marker, and its text stays unread. */
  lemma SpaceIsMisread(v: Bytes, tail: Bytes, cap: nat)
    requires cap >= 3 && StartsWithSpace(v)
    ensures ReadLine(true, false, FieldText(true, v) + tail, cap)
         == LineResult(Success, None, (FieldText(true, v) + tail)[1..], cap)
  {
    EncodeLeadingSpace(true, v);
    assert (FieldText(true, v) + tail)[1] == Encode(true, v)[0];
  }

  /** A repeat marker consumes one character net. */
  lemma ReadRepeat(plain: bool, tail: Bytes, cap: nat)
    requires cap >= 3
    ensures ReadLine(plain, false, "  " + tail, cap) == LineResult(Success, None, " " + tail, cap)
  {
    assert ("  " + tail)[1..] == " " + tail;
  }

  const DATA_END_LINE: Bytes := "DATA=END\n"

  lemma ReadDataEnd(plain: bool, tail: Bytes, cap: nat)
    requires cap >= 9
    ensures ReadLine(plain, false, DATA_END_LINE + tail, cap) == LineResult(EndOfFile, None, tail, cap)
  {
    var s := DATA_END_LINE + tail;
    assert s[1..] == DATA_END + "\n" + tail;
    IndexOfAt('\n', DATA_END, tail);
    assert Chunk(s[1..], cap) == DATA_END + "\n";
    assert DATA_END <= DATA_END + "\n";
  }

  /** Reading never gives characters back beyond the one pushed back after a marker. */
  lemma ReadLineProgress(plain: bool, s: Bytes, cap: nat)
    requires cap >= 3
    ensures var r := ReadLine(plain, false, s, cap);
            r.cap >= cap && |r.rest| <= |s| && (r.status == Success ==> |r.rest| < |s|)
  {
    if s != [] && s[0] == ' ' && s[1..] != [] {
      FrameShrinks(s[1], s[2..], cap);
      assert s[1..][1..] == s[2..];
    }
  }

  lemma {:induction false} GrowShrinks(line: Bytes, rest: Bytes, cap: nat)
    requires 0 < |line| < cap
    ensures |Grow(line, rest, cap).1| <= |rest| && Grow(line, rest, cap).2 >= cap
    decreases |rest|
  {
    if line[|line| - 1] != '\n' && rest != [] {
      var c := Chunk(rest, 2 * cap - |line|);
      GrowShrinks(line + CString(c), rest[|c|..], 2 * cap);
    }
  }

  lemma FrameShrinks(c: Octet, s: Bytes, cap: nat)
    requires cap >= 3
    ensures |Frame(c, s, cap).1| <= |s| && Frame(c, s, cap).2 >= cap
  {
    if c == '\n' || s != [] {
      var chunk := if c == '\n' then [] else Chunk(s, cap - 1);
      var line := CString([c] + chunk);
      if line != [] {
        GrowShrinks(line, s[|chunk|..], cap);
      }
    }
  }

  /** Without the leading space of a record line, a line that starts with a space is reported as read
      although nothing was consumed: no number of further calls gets past it. */
  lemma NoHeaderSpaceSticks(plain: bool, s: Bytes, cap: nat)
    requires cap >= 3 && StartsWithSpace(s)
    ensures ReadLine(plain, true, s, cap) == LineResult(Success, None, s, cap)
  {
  }

  /** Those lines are the only ones: without a header, a successful read consumes something exactly when the line does
      not start with a space. */
  lemma NoHeaderAdvancesIff(plain: bool, s: Bytes, cap: nat)
    requires cap >= 3
    ensures var r := ReadLine(plain, true, s, cap);
            r.status == Success ==> |r.rest| <= |s| && (|r.rest| < |s| <==> !StartsWithSpace(s))
  {
    if s != [] {
      FrameShrinks(s[0], s[1..], cap);
    }
  }

  // ---------- a value that is read never starts with a printed space ----------

  /** Nowhere in `s` is a space written as an escape. */
  ghost predicate NoEscapedSpace(s: Bytes) {
    forall i :: 0 <= i && i + 2 < |s| ==> !(s[i] == '\\' && s[i + 1] == '2' && s[i + 2] == '0')
  }

  lemma {:induction false} GrowIsPrefix(line: Bytes, rest: Bytes, cap: nat)
    requires 0 < |line| < cap && '\0' !in rest
    ensures var (full, rest', _) := Grow(line, rest, cap);
            full.Some? ==> full.value + rest' == line + rest && |full.value| >= 1
    decreases |rest|
  {
    if line[|line| - 1] != '\n' && rest != [] {
      var c := Chunk(rest, 2 * cap - |line|);
      CStringIsWhole(c);
      assert line + c + rest[|c|..] == line + rest;
      GrowIsPrefix(line + c, rest[|c|..], 2 * cap);
    }
  }

  lemma FrameIsPrefix(s: Bytes, cap: nat)
    requires cap >= 3 && s != [] && '\0' !in s
    ensures var (full, rest, _) := Frame(s[0], s[1..], cap);
            full.Some? ==> 1 <= |full.value| <= |s| && full.value == s[..|full.value|] && rest == s[|full.value|..]
  {
    var c, t := s[0], s[1..];
    if c == '\n' || t != [] {
      var chunk := if c == '\n' then [] else Chunk(t, cap - 1);
      CStringIsWhole([c] + chunk);
      assert [c] + chunk + t[|chunk|..] == s;
      GrowIsPrefix([c] + chunk, t[|chunk|..], cap);
    }
  }

  lemma NoSpaceDecoded(line: Bytes)
    requires !StartsWithSpace(line) && NoEscapedSpace(line)
    ensures Decode(true, line).Some? ==> !StartsWithSpace(Decode(true, line).value)
  {
    if line != [] && line[0] == '\\' && |line| >= 3 && line[1] != '\\' && IsXDigit(line[1]) && IsXDigit(line[2]) {
      assert !(line[0] == '\\' && line[0 + 1] == '2' && line[0 + 2] == '0');
      assert Unhex(line[1], line[2]) != ' ';
    }
  }

  lemma NoSpaceInText(s: Bytes, cap: nat) returns (k: nat)
    requires cap >= 3 && s != [] && s[0] != ' ' && '\0' !in s && NoEscapedSpace(s)
    ensures k <= |s|
    ensures var r := ReadText(true, s[0], s[1..], cap);
            r.status == Success ==> r.out.Some? && !StartsWithSpace(r.out.value) && r.rest == s[k..]
  {
    FrameIsPrefix(s, cap);
    var (full, _, _) := Frame(s[0], s[1..], cap);
    k := 0;
    if full.Some? {
      k := |full.value|;
      NoSpaceDecoded(s[..k - 1]);
      assert full.value[..k - 1] == s[..k - 1];
    }
  }

  /** Print mode cannot deliver a leading space from text that escapes none. */
  lemma NoSpaceRead(s: Bytes, cap: nat) returns (k: nat)
    requires cap >= 3 && '\0' !in s && NoEscapedSpace(s)
    ensures k <= |s|
    ensures var r := ReadLine(true, false, s, cap);
            r.status == Success ==> r.rest == s[k..] && (r.out.Some? ==> !StartsWithSpace(r.out.value))
  {
    k := 0;
    if s != [] && s[0] == ' ' && s[1..] != [] {
      if s[1] == ' ' {
        k := 1;
      } else {
        var i := NoSpaceInText(s[1..], cap);
        k := 1 + i;
      }
    }
  }
}
