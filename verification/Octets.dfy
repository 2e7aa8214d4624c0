/** Bytes, C strings and optional values shared by the whole model. */
module Octets {
  datatype Option<+T> = None | Some(value: T)

  /** An 8-bit character: both a character of the dump text and a byte of a key or a value. */
  type Octet = c: char | c as int < 256

  type Bytes = seq<Octet>

  /** The index of the first `c`, or the length when there is none. */
  function IndexOf(c: Octet, s: Bytes): (n: nat)
    ensures n <= |s|
  {
    if s == [] || s[0] == c then 0 else 1 + IndexOf(c, s[1..])
  }

  /** What a C string function sees of a memory block: everything before the first NUL. */
  function CString(mem: Bytes): Bytes {
    mem[..IndexOf('\0', mem)]
  }

  lemma IndexOfIsFirst(c: Octet, s: Bytes)
    ensures c !in s[..IndexOf(c, s)]
    ensures IndexOf(c, s) < |s| ==> s[IndexOf(c, s)] == c
  {
  }

  lemma {:induction false} IndexOfUnique(c: Octet, s: Bytes, n: nat)
    requires n <= |s| && c !in s[..n]
    requires n < |s| ==> s[n] == c
    ensures IndexOf(c, s) == n
  {
    if n > 0 {
      assert s[..n][0] == s[0] && s[..n][1..] == s[1..][..n - 1];
      IndexOfUnique(c, s[1..], n - 1);
    }
  }

  lemma IndexOfAt(c: Octet, pre: Bytes, post: Bytes)
    requires c !in pre
    ensures IndexOf(c, pre + [c] + post) == |pre|
  {
    assert (pre + [c] + post)[..|pre|] == pre;
    IndexOfUnique(c, pre + [c] + post, |pre|);
  }

  lemma CStringIsWhole(mem: Bytes)
    requires '\0' !in mem
    ensures CString(mem) == mem
  {
    assert mem[..|mem|] == mem;
    IndexOfUnique('\0', mem, |mem|);
  }

  // ---------- concatenations that Dafny has to be told are the same ----------

  /** Two bracketings of three parts. */
  lemma ConcatAssociates<T>(a: seq<T>, b: seq<T>, c: seq<T>)
    ensures a + b + c == a + (b + c)
  {
  }

  /** The first of four parts set apart. */
  lemma ConcatKeepsFirst(a: Bytes, b: Bytes, c: Bytes, d: Bytes)
    ensures a + b + c + d == a + (b + c + d)
  {
  }

  /** Four parts nested to the right, and without brackets. */
  lemma ConcatFlattens(a: Bytes, b: Bytes, c: Bytes, d: Bytes)
    ensures a + (b + (c + d)) == a + b + c + d
  {
  }

  /** A last part appended to a nested three, and nested with them. */
  lemma ConcatNestsLast(a: Bytes, b: Bytes, c: Bytes, d: Bytes)
    ensures (a + (b + c)) + d == a + (b + (c + d))
  {
  }

  /** The middle two of four parts joined first. */
  lemma ConcatJoinsMiddle(a: Bytes, b: Bytes, c: Bytes, d: Bytes)
    ensures a + b + c + d == a + ((b + c) + d)
  {
  }

  /** The two parts of a suffix are slices of the whole. */
  lemma Slices<T>(s: seq<T>, i: nat, a: seq<T>, b: seq<T>)
    requires i <= |s| && s[i..] == a + b
    ensures i + |a| <= |s| && s[i..i + |a|] == a && s[i + |a|..] == b
  {
    assert |s| - i == |a| + |b|;
    assert s[i..i + |a|] == s[i..][..|a|] == (a + b)[..|a|];
    assert s[i + |a|..] == s[i..][|a|..] == (a + b)[|a|..];
  }
}
