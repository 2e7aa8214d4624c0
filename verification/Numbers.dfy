/** Numbers in the header of a dump: `printf("%" PRIu64)`, `strtoull` and the numeric fields of `sscanf`. */
module Numbers {
  import opened Octets
  import opened Words

  // ---------- printing ----------

  function DecimalDigit(n: nat): Octet
    requires n < 10
  {
    ('0' as int + n) as char
  }

  function Decimal(n: nat): (s: Bytes)
    ensures s != []
  {
    (if n < 10 then [] else Decimal(n / 10)) + [DecimalDigit(n % 10)]
  }

  // ---------- parsing ----------

  predicate IsSpace(c: Octet) { c == ' ' || '\t' <= c <= '\r' }

  function SkipSpace(s: Bytes): Bytes {
    if s != [] && IsSpace(s[0]) then SkipSpace(s[1..]) else s
  }

  /** The value of a digit of any base up to 16; 99 for anything else. */
  function DigitOf(c: Octet): nat {
    if '0' <= c <= '9' then c as int - '0' as int
    else if 'a' <= c <= 'f' then c as int - 'a' as int + 10
    else if 'A' <= c <= 'F' then c as int - 'A' as int + 10
    else 99
  }

  predicate StartsWithDigit(s: Bytes, base: nat) { s != [] && DigitOf(s[0]) < base }

  /** Accumulates the leading digits, and returns what follows them. */
  function ScanDigits(s: Bytes, base: nat, acc: nat): (nat, Bytes) {
    if !StartsWithDigit(s, base) then (acc, s)
    else ScanDigits(s[1..], base, acc * base + DigitOf(s[0]))
  }

  /** `strtoull(s, &end, base)` for base 0 or 10, as its value and the text from `end` on: white space, a sign,
      a base prefix, then digits. Too large a value saturates, a negative one wraps, no digits at all give 0. */
  function Strtoull(s: Bytes, base: nat): (nat, Bytes) {
    var t := SkipSpace(s);
    var negative := t != [] && t[0] == '-';
    var u := if t != [] && (t[0] == '-' || t[0] == '+') then t[1..] else t;
    var hex := base == 0 && |u| >= 2 && u[0] == '0' && (u[1] == 'x' || u[1] == 'X') && StartsWithDigit(u[2..], 16);
    var radix := if base != 0 then base else if hex then 16 else if u != [] && u[0] == '0' then 8 else 10;
    var digits := if hex then u[2..] else u;
    if !StartsWithDigit(digits, radix) then (0, s)
    else
      var (v, rest) := ScanDigits(digits, radix, 0);
      (if v >= U64 then U64 - 1 else if negative then (U64 - v) % U64 else v, rest)
  }

  /** `sscanf` with a format such as `l%lu,u%lu,s%lu`, given as its letters: the values when all fields convert. */
  function ScanFields(s: Bytes, letters: Bytes): Option<seq<nat>>
    decreases |letters|
  {
    if letters == [] then Some([])
    else if s == [] || s[0] != letters[0] then None
    else
      var (v, rest) := Strtoull(s[1..], 10);
      if rest == s[1..] then None
      else if |letters| == 1 then Some([v])
      else if rest == [] || rest[0] != ',' then None
      else
        match ScanFields(rest[1..], letters[1..])
        case None => None
        case Some(vs) => Some([v] + vs)
  }

  /** The text that such a format prints. */
  function FieldsText(letters: Bytes, vs: seq<nat>): Bytes
    requires |vs| == |letters|
    decreases |letters|
  {
    if letters == [] then []
    else [letters[0]] + Decimal(vs[0]) + (if |letters| == 1 then [] else "," + FieldsText(letters[1..], vs[1..]))
  }

  // ---------- round trips ----------

  lemma {:induction false} ScanPrinted(n: nat, t: Bytes)
    ensures ScanDigits(Decimal(n) + t, 10, 0) == ScanDigits(t, 10, n)
  {
    var d := DecimalDigit(n % 10);
    assert DigitOf(d) == n % 10;
    assert ([d] + t)[1..] == t;
    if n < 10 {
      assert Decimal(n) == [d];
    } else {
      assert Decimal(n) + t == Decimal(n / 10) + ([d] + t);
      ScanPrinted(n / 10, [d] + t);
    }
  }

  lemma {:induction false} DecimalStart(n: nat)
    ensures '0' <= Decimal(n)[0] <= '9'
    ensures Decimal(n)[0] == '0' <==> n == 0
    ensures forall c :: c in Decimal(n) ==> '0' <= c <= '9'
  {
    if n >= 10 {
      DecimalStart(n / 10);
      assert Decimal(n)[0] == Decimal(n / 10)[0];
    }
  }

  /** A printed number is read back, in base 0 as well, up to the first character that is not a digit. */
  lemma StrtoullPrinted(n: nat, t: Bytes, base: nat)
    requires n < U64 && (base == 0 || base == 10)
    requires t == [] || (base == 10 && !StartsWithDigit(t, 10))
    ensures Strtoull(Decimal(n) + t, base) == (n, t)
  {
    DecimalStart(n);
    var s := Decimal(n) + t;
    assert s[0] == Decimal(n)[0];
    assert SkipSpace(s) == s;
    if base == 0 && n == 0 {
      assert s == "0";
      assert ScanDigits(s, 8, 0) == ScanDigits(s[1..], 8, 0) == (0, []);
    } else {
      ScanPrinted(n, t);
      assert ScanDigits(t, 10, n) == (n, t);
    }
  }

  lemma FirstField(c: Octet, v: nat, more: Bytes)
    requires v < U64 && (more == [] || more[0] == ',')
    ensures var s := [c] + Decimal(v) + more;
            s[0] == c && Strtoull(s[1..], 10) == (v, more) && more != s[1..]
  {
    var s := [c] + Decimal(v) + more;
    assert s[1..] == Decimal(v) + more;
    assert |s[1..]| > |more|;
    assert !StartsWithDigit(more, 10);
    StrtoullPrinted(v, more, 10);
  }

  lemma {:induction false} ScanPrintedFields(letters: Bytes, vs: seq<nat>)
    requires |vs| == |letters| && forall i :: 0 <= i < |vs| ==> vs[i] < U64
    ensures ScanFields(FieldsText(letters, vs), letters) == Some(vs)
    decreases |letters|
  {
    if |letters| == 1 {
      FirstField(letters[0], vs[0], []);
      assert vs == [vs[0]];
    } else if letters != [] {
      var rest := FieldsText(letters[1..], vs[1..]);
      assert ("," + rest)[1..] == rest;
      FirstField(letters[0], vs[0], "," + rest);
      ScanPrintedFields(letters[1..], vs[1..]);
      assert vs == [vs[0]] + vs[1..];
    }
  }

  function Pow10(k: nat): nat { if k == 0 then 1 else 10 * Pow10(k - 1) }

  lemma {:induction false} DecimalLength(n: nat, k: nat)
    requires k >= 1 && n < Pow10(k)
    ensures |Decimal(n)| <= k
  {
    if n >= 10 {
      assert k >= 2;
      DecimalLength(n / 10, k - 1);
    }
  }

  lemma U64Length(n: nat)
    requires n < U64
    ensures |Decimal(n)| <= 20
  {
    assert Pow10(10) == 10_000_000_000;
    assert Pow10(15) == 1_000_000_000_000_000;
    assert Pow10(20) == 100_000_000_000_000_000_000;
    DecimalLength(n, 20);
  }
}
