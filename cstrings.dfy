/**
 * NUL-terminated character buffers, as the C library treats them: the
 * string a buffer holds, zero-filling (`bzero`), appending (`strcat`),
 * decimal formatting into a bounded buffer (`snprintf` with `%.0f` on a
 * whole number) and bounded comparison (`strncmp`).
 */
module CStrings {

  const NUL: char := '\0'

  /** The C string a buffer holds: its characters up to, not including, the first NUL. */
  function CStr(buf: seq<char>): (s: string)
    ensures |s| <= |buf|
    ensures s == buf[..|s|]
    ensures NUL !in s
    ensures |s| < |buf| ==> buf[|s|] == NUL
  {
    if buf == [] || buf[0] == NUL then [] else [buf[0]] + CStr(buf[1..])
  }

  /** Whatever follows the first NUL does not change the C string. */
  lemma {:induction false} CStrOfTerminated(s: string, rest: seq<char>)
    requires NUL !in s
    ensures CStr(s + [NUL] + rest) == s
  {
    if s != [] {
      assert (s + [NUL] + rest)[1..] == s[1..] + [NUL] + rest;
      CStrOfTerminated(s[1..], rest);
    }
  }

  /** A buffer that already holds a NUL keeps its C string when more is appended behind it. */
  lemma {:induction false} CStrOfPadded(buf: seq<char>, pad: seq<char>)
    requires NUL in buf || (pad != [] && pad[0] == NUL)
    ensures CStr(buf + pad) == CStr(buf)
  {
    if buf != [] && buf[0] != NUL {
      assert (buf + pad)[1..] == buf[1..] + pad;
      CStrOfPadded(buf[1..], pad);
    }
  }

  /** The character at index `i` of a C string literal, reading its terminating NUL past the end. */
  function CharAt(s: seq<char>, i: nat): char {
    if i < |s| then s[i] else NUL
  }

  /** `strncmp(a, b, n)`: compares at most `n` characters, stopping after a common NUL. */
  function StrNCmp(a: seq<char>, b: seq<char>, n: nat): (r: int)
    ensures a == b ==> r == 0
    decreases n
  {
    if n == 0 then 0
    else if CharAt(a, 0) != CharAt(b, 0) then CharAt(a, 0) as int - CharAt(b, 0) as int
    else if CharAt(a, 0) == NUL then 0
    else StrNCmp(if a == [] then [] else a[1..], if b == [] then [] else b[1..], n - 1)
  }

  /** Comparing a NUL-free literal of length `n` against a buffer: equal exactly when the buffer starts with it. */
  lemma {:induction false} StrNCmpLiteral(lit: string, buf: seq<char>)
    requires NUL !in lit
    requires |lit| <= |buf|
    ensures StrNCmp(lit, buf, |lit|) == 0 <==> buf[..|lit|] == lit
  {
    if lit != [] {
      assert CharAt(lit, 0) == lit[0] && CharAt(buf, 0) == buf[0];
      if lit[0] == buf[0] {
        StrNCmpLiteral(lit[1..], buf[1..]);
        assert buf[..|lit|] == [buf[0]] + buf[1..][..|lit| - 1];
        assert lit == [lit[0]] + lit[1..];
      }
    }
  }

  /** A buffer shorter than a NUL-free literal never compares equal to it over the literal's length. */
  lemma {:induction false} StrNCmpFits(lit: string, buf: seq<char>)
    requires NUL !in lit
    ensures StrNCmp(lit, buf, |lit|) == 0 ==> |lit| <= |buf|
  {
    if lit != [] && buf != [] && lit[0] == buf[0] {
      assert CharAt(lit, 0) == lit[0] && CharAt(buf, 0) == buf[0];
      StrNCmpFits(lit[1..], buf[1..]);
    } else if lit != [] && buf == [] {
      assert CharAt(lit, 0) == lit[0] && CharAt(buf, 0) == NUL;
    }
  }

  /** `bzero(buf, buf.Length)`. */
  method Zero(buf: array<char>)
    modifies buf
    ensures forall k :: 0 <= k < buf.Length ==> buf[k] == NUL
  {
    var k := 0;
    while k < buf.Length
      invariant 0 <= k <= buf.Length
      invariant forall j :: 0 <= j < k ==> buf[j] == NUL
    {
      buf[k] := NUL;
      k := k + 1;
    }
  }

  /** Constructing a `std::string` from a character buffer: scans up to the first NUL. */
  method StringOf(buf: array<char>) returns (s: string)
    requires NUL in buf[..]
    ensures s == CStr(buf[..])
  {
    var n := 0;
    while buf[n] != NUL
      invariant 0 <= n < buf.Length
      invariant NUL !in buf[..n]
      invariant NUL in buf[n..]
      decreases buf.Length - n
    {
      assert buf[n..] == [buf[n]] + buf[n + 1..];
      n := n + 1;
    }
    s := buf[..n];
    assert buf[..] == s + [NUL] + buf[n + 1..];
    CStrOfTerminated(s, buf[n + 1..]);
  }

  /**
   * `strcat(dst, src)`: overwrites the NUL that ends the C string in `dst`
   * with `src` followed by a new NUL. The caller must leave room for both.
   */
  method StrCat(dst: array<char>, src: string)
    requires NUL in dst[..]
    requires NUL !in src
    requires |CStr(dst[..])| + |src| < dst.Length
    modifies dst
    ensures NUL in dst[..]
    ensures CStr(dst[..]) == old(CStr(dst[..])) + src
    ensures forall k :: |old(CStr(dst[..]))| + |src| < k < dst.Length ==> dst[k] == old(dst[k])
  {
    var n := |CStr(dst[..])|;
    ghost var head := CStr(dst[..]);
    var k := 0;
    while k < |src|
      invariant 0 <= k <= |src|
      invariant forall j :: 0 <= j < n ==> dst[j] == head[j]
      invariant forall j :: 0 <= j < k ==> dst[n + j] == src[j]
      invariant forall j :: n + k <= j < dst.Length ==> dst[j] == old(dst[j])
    {
      dst[n + k] := src[k];
      k := k + 1;
    }
    dst[n + |src|] := NUL;
    CStrAfterCopy(dst[..], head, src);
  }

  /** A buffer holding `head`, then `src`, then a NUL, reads back as `head + src`. */
  lemma CStrAfterCopy(buf: string, head: string, src: string)
    requires NUL !in head && NUL !in src
    requires |head| + |src| < |buf|
    requires forall j :: 0 <= j < |head| ==> buf[j] == head[j]
    requires forall j :: 0 <= j < |src| ==> buf[|head| + j] == src[j]
    requires buf[|head| + |src|] == NUL
    ensures CStr(buf) == head + src
  {
    var t := head + src;
    forall j | 0 <= j < |t|
      ensures buf[j] == t[j]
    {
      if j >= |head| {
        assert buf[|head| + (j - |head|)] == src[j - |head|];
      }
    }
    CStrIs(buf, t);
  }

  /** A buffer whose first NUL sits right after the NUL-free `t` holds the C string `t`. */
  lemma {:induction false} CStrIs(buf: seq<char>, t: string)
    requires NUL !in t && |t| < |buf| && buf[|t|] == NUL
    requires forall j :: 0 <= j < |t| ==> buf[j] == t[j]
    ensures CStr(buf) == t
  {
    if t != [] {
      CStrIs(buf[1..], t[1..]);
    }
  }

  /** The decimal digit for `d`. */
  function Digit(d: nat): char
    requires d < 10
  {
    ('0' as int + d) as char
  }

  /** The value of a decimal digit character. */
  function DigitValue(c: char): nat {
    if '0' <= c <= '9' then (c as int - '0' as int) as nat else 0
  }

  predicate IsDigit(c: char) {
    '0' <= c <= '9'
  }

  /** The decimal rendering of a whole number, as `printf("%.0f", n)` prints it. */
  function Decimal(n: nat): (s: string)
    ensures |s| >= 1
    ensures forall i :: 0 <= i < |s| ==> IsDigit(s[i])
    ensures s[0] == '0' ==> n == 0
  {
    if n < 10 then [Digit(n)] else Decimal(n / 10) + [Digit(n % 10)]
  }

  /** A rendering holds no NUL, so it can be appended as a C string. */
  lemma DecimalHasNoNul(n: nat)
    ensures NUL !in Decimal(n)
  {
    var s := Decimal(n);
    forall i | 0 <= i < |s| ensures s[i] != NUL {
      assert IsDigit(s[i]);
    }
  }

  /** Reading a string of decimal digits back as a number. */
  function ValueOf(s: string): nat {
    if s == [] then 0 else 10 * ValueOf(s[..|s| - 1]) + DigitValue(s[|s| - 1])
  }

  /** Rendering and reading back are inverse: the rendering loses nothing. */
  lemma {:induction false} ValueOfDecimal(n: nat)
    ensures ValueOf(Decimal(n)) == n
  {
    var s := Decimal(n);
    if n >= 10 {
      var q, r := n / 10, n % 10;
      assert s[..|s| - 1] == Decimal(q);
      ValueOfDecimal(q);
      assert ValueOf(s) == 10 * q + r;
    } else {
      assert s[..0] == [];
    }
  }

  /** Distinct numbers render to distinct strings. */
  lemma DecimalInjective(a: nat, b: nat)
    ensures Decimal(a) == Decimal(b) ==> a == b
  {
    ValueOfDecimal(a);
    ValueOfDecimal(b);
  }

  function Pow10(k: nat): (p: nat)
    ensures p >= 1
  {
    if k == 0 then 1 else 10 * Pow10(k - 1)
  }

  /** A number renders in at most `k` characters exactly when it is below 10^k. */
  lemma {:induction false} DecimalLength(n: nat, k: nat)
    requires k >= 1
    ensures |Decimal(n)| <= k <==> n < Pow10(k)
  {
    if n >= 10 {
      if k == 1 {
        assert |Decimal(n)| >= 2;
      } else {
        DecimalLength(n / 10, k - 1);
      }
    } else if k > 1 {
      PowGrows(k);
    }
  }

  lemma {:induction false} PowGrows(k: nat)
    requires k >= 1
    ensures Pow10(k) >= 10
  {
    if k > 1 {
      PowGrows(k - 1);
    }
  }

  /** Powers of ten grow with the exponent. */
  lemma {:induction false} PowMonotone(j: nat, k: nat)
    requires j <= k
    ensures Pow10(j) <= Pow10(k)
    decreases k
  {
    if j < k {
      PowMonotone(j, k - 1);
    }
  }

  /**
   * `snprintf(dst, dst.Length, "%.0f", n)` for a whole number `n`: writes
   * at most `dst.Length - 1` characters of the rendering and a NUL.
   */
  method FormatDecimal(dst: array<char>, n: nat)
    requires dst.Length >= 1
    modifies dst
    ensures NUL in dst[..]
    ensures var s := Decimal(n); CStr(dst[..]) == if |s| < dst.Length then s else s[..dst.Length - 1]
    ensures forall k :: |CStr(dst[..])| < k < dst.Length ==> dst[k] == old(dst[k])
  {
    var s := Decimal(n);
    var m := if |s| < dst.Length then |s| else dst.Length - 1;
    var k := 0;
    while k < m
      invariant 0 <= k <= m
      invariant forall i :: 0 <= i < k ==> dst[i] == s[i]
      invariant forall i :: m < i < dst.Length ==> dst[i] == old(dst[i])
    {
      dst[k] := s[k];
      k := k + 1;
    }
    dst[m] := NUL;
    assert NUL !in s[..m] by {
      DecimalHasNoNul(n);
      assert forall i :: 0 <= i < m ==> s[..m][i] == s[i];
    }
    CStrIs(dst[..], s[..m]);
  }
}
