/**
  The parts of the C library that the HTTP engine leans on, stated over
  `string` (one `char` stands for one C `char`): strchr, strrchr, strstr,
  strncmp against a literal, strlen over a buffer, atoi and the `%d`
  conversion of sprintf.  Unsigned 32-bit arithmetic is written out.
*/
module CStrings {
  import opened Wrappers

  const NUL: char := '\0'
  const CRLF: string := "\r\n"

  const TWO_32: int := 0x1_0000_0000
  const INT_MAX: int := 0x7FFF_FFFF
  const INT_MIN: int := -0x8000_0000

  type uint8 = x: int | 0 <= x < 0x100
  type uint16 = x: int | 0 <= x < 0x1_0000
  type uint32 = x: int | 0 <= x < 0x1_0000_0000

  /** Conversion of an int to `uint` (C assignment): reduction modulo 2^32. */
  function ToU32(x: int): (r: uint32)
    ensures 0 <= x < TWO_32 ==> r == x
    ensures -TWO_32 <= x < 0 ==> r == x + TWO_32
  {
    x % TWO_32
  }

  /** How `%d` reads a `uint`: as the signed 32-bit value with the same bits. */
  function Signed32(x: uint32): (r: int)
    ensures INT_MIN <= r <= INT_MAX
    ensures ToU32(r) == x
  {
    if x <= INT_MAX then x else x - TWO_32
  }

  /** A string that a C `char*` can hold: no NUL inside it. */
  predicate NoNul(s: string) {
    NUL !in s
  }

  /** The C string that starts at the first byte of a buffer (what strlen measures). */
  function CStr(buf: string): (r: string)
    ensures r <= buf && NUL !in r
    ensures |r| < |buf| ==> buf[|r|] == NUL
  {
    if buf == [] || buf[0] == NUL then [] else [buf[0]] + CStr(buf[1..])
  }

  /**
    A buffer cut or NUL-padded to n bytes: what C leaves in bytes that were
    never written (the grown part of a realloc, the end of a short read) is
    indeterminate, and NUL stands for it here.
  */
  function Resize(d: string, n: nat): (r: string)
    ensures |r| == n
    ensures n <= |d| ==> r == d[..n]
    ensures |d| <= n ==> r[..|d|] == d
  {
    if n <= |d| then d[..n] else d + seq(n - |d|, _ => NUL)
  }

  /** strchr: the first position of `c` in `s`. */
  function IndexOf(s: string, c: char): (r: Option<nat>)
    ensures r.Some? ==> r.value < |s| && s[r.value] == c
    ensures r.Some? ==> forall j :: 0 <= j < r.value ==> s[j] != c
    ensures r.None? ==> forall j :: 0 <= j < |s| ==> s[j] != c
  {
    if s == [] then None
    else if s[0] == c then Some(0)
    else match IndexOf(s[1..], c)
      case None => None
      case Some(i) => Some(i + 1)
  }

  /** The first `c` in `s` is at i when s[i] is `c` and no `c` comes before it. */
  lemma {:induction false} IndexOfAt(s: string, c: char, i: nat)
    requires i < |s| && s[i] == c
    requires forall j :: 0 <= j < i ==> s[j] != c
    ensures IndexOf(s, c) == Some(i)
  {
    if i > 0 {
      IndexOfAt(s[1..], c, i - 1);
    }
  }

  /** `s` has no `c` in it. */
  predicate Lacks(s: string, c: char) {
    forall j :: 0 <= j < |s| ==> s[j] != c
  }

  /** In a text made of a part without `c`, a `c`, and a rest, the first `c` is the one after the part. */
  lemma IndexOfJoin(a: string, c: char, b: string)
    requires Lacks(a, c)
    ensures IndexOf(a + [c] + b, c) == Some(|a|)
    ensures (a + [c] + b)[..|a|] == a && (a + [c] + b)[|a| + 1..] == b
  {
    IndexOfAt(a + [c] + b, c, |a|);
  }

  /** strlen stops at the first NUL, or at the end of the buffer. */
  lemma {:induction false} CStrOf(a: string, b: string)
    requires Lacks(a, NUL) && (b == [] || b[0] == NUL)
    ensures CStr(a + b) == a
  {
    if a != [] {
      DropLeft(a, b, 1);
      CStrOf(a[1..], b);
    }
  }

  /** The first `c` of a prefix is the first `c` of the whole, when that lies inside the prefix. */
  lemma {:induction false} IndexOfPrefix(s: string, c: char, n: nat)
    requires n <= |s|
    ensures IndexOf(s[..n], c) == (if IndexOf(s, c).Some? && IndexOf(s, c).value < n then IndexOf(s, c) else None)
  {
    if n > 0 && s[0] != c {
      assert s[..n][1..] == s[1..][..n - 1];
      IndexOfPrefix(s[1..], c, n - 1);
    }
  }

  /** strrchr: the last position of `c` in `s`. */
  function LastIndexOf(s: string, c: char): (r: Option<nat>)
    ensures r.Some? ==> r.value < |s| && s[r.value] == c
    ensures r.Some? ==> forall j :: r.value < j < |s| ==> s[j] != c
    ensures r.None? ==> forall j :: 0 <= j < |s| ==> s[j] != c
  {
    if s == [] then None
    else if s[|s| - 1] == c then Some(|s| - 1)
    else LastIndexOf(s[..|s| - 1], c)
  }

  /** A `c` with none after it is the one strrchr finds. */
  lemma LastIndexOfAt(s: string, c: char, i: nat)
    requires i < |s| && s[i] == c
    requires forall j :: i < j < |s| ==> s[j] != c
    ensures LastIndexOf(s, c) == Some(i)
  {
  }

  /** Concatenation is associative (stated once, so that proofs need not rediscover it). */
  lemma Assoc<T>(a: seq<T>, b: seq<T>, c: seq<T>)
    ensures a + b + c == a + (b + c)
  {
  }

  /** Dropping a prefix past the end of `a` drops into `b`. */
  lemma DropAppend(a: string, b: string, k: nat)
    requires k <= |b|
    ensures (a + b)[|a| + k..] == b[k..]
  {
  }

  /** Dropping twice is dropping once. */
  lemma DropDrop<T>(s: seq<T>, a: nat, b: nat, ab: nat)
    requires ab == a + b <= |s|
    ensures s[a..][b..] == s[ab..]
  {
  }

  /** Dropping a prefix of the first part of a concatenation. */
  lemma DropLeft<T>(a: seq<T>, b: seq<T>, k: nat)
    requires k <= |a|
    ensures (a + b)[k..] == a[k..] + b
  {
  }

  /** A CR LF pair starts at position `j` of `s`. */
  predicate CrlfAt(s: string, j: nat) {
    j + 1 < |s| && s[j] == '\r' && s[j + 1] == '\n'
  }

  /** strstr(s, "\r\n"): the position of the first CRLF in `s`. */
  function FindCrlf(s: string): (r: Option<nat>)
    ensures r.Some? ==> CrlfAt(s, r.value)
    decreases |s|
  {
    if |s| < 2 then None
    else if s[0] == '\r' && s[1] == '\n' then Some(0)
    else match FindCrlf(s[1..])
      case None => None
      case Some(k) => Some(k + 1)
  }

  /** FindCrlf finds the first CRLF, and None means there is none. */
  lemma {:induction false} FindCrlfFirst(s: string)
    ensures FindCrlf(s).Some? ==> forall j :: 0 <= j < FindCrlf(s).value ==> !CrlfAt(s, j)
    ensures FindCrlf(s).None? ==> forall j :: 0 <= j < |s| ==> !CrlfAt(s, j)
    decreases |s|
  {
    if |s| >= 2 && !(s[0] == '\r' && s[1] == '\n') {
      FindCrlfFirst(s[1..]);
      forall j | 0 < j < |s| && CrlfAt(s, j) ensures CrlfAt(s[1..], j - 1) {
      }
    }
  }


  /** strncmp(lit, s, |lit|) == 0 for a NUL-free literal: `s` begins with `lit`. */
  predicate StartsWith(s: string, lit: string) {
    lit <= s
  }

  // ---------------------------------------------------------------- atoi

  /** isspace in the C locale. */
  predicate IsSpace(c: char) {
    c == ' ' || c == '\t' || c == '\n' || c == 11 as char || c == 12 as char || c == '\r'
  }

  predicate IsDigit(c: char) {
    '0' <= c <= '9'
  }

  function DigitValue(c: char): (d: nat)
    requires IsDigit(c)
    ensures d < 10
  {
    (c as int) - ('0' as int)
  }

  function DigitChar(d: nat): (c: char)
    requires d < 10
    ensures IsDigit(c) && DigitValue(c) == d
  {
    (('0' as int) + d) as char
  }

  predicate AllDigits(s: string) {
    forall i :: 0 <= i < |s| ==> IsDigit(s[i])
  }

  /** Leading white space skipped by atoi. */
  function SkipSpace(s: string): (r: string)
    ensures r <= s || (|r| <= |s| && r == s[|s| - |r|..])
    ensures r == [] || !IsSpace(r[0])
  {
    if s != [] && IsSpace(s[0]) then SkipSpace(s[1..]) else s
  }

  /** The longest prefix of `s` made of decimal digits. */
  function LeadingDigits(s: string): (r: string)
    ensures r <= s && AllDigits(r)
    ensures |r| < |s| ==> !IsDigit(s[|r|])
  {
    if s != [] && IsDigit(s[0]) then [s[0]] + LeadingDigits(s[1..]) else []
  }

  /** The value of a run of decimal digits, most significant first. */
  function DigitsValue(d: string): nat
    requires AllDigits(d)
  {
    if d == [] then 0 else DigitsValue(d[..|d| - 1]) * 10 + DigitValue(d[|d| - 1])
  }

  /**
    atoi as newlib implements it (strtol with a 32-bit long, then cast to
    int): leading white space, an optional sign, the digits that follow;
    a value out of range saturates at INT_MAX or INT_MIN.
  */
  function Atoi(s: string): (r: int)
    ensures INT_MIN <= r <= INT_MAX
  {
    SignedValue(SkipSpace(s))
  }

  /** The value of an optional sign and the digits after it. */
  function SignedValue(t: string): (r: int)
    ensures INT_MIN <= r <= INT_MAX
  {
    if t != [] && t[0] == '-' then NegativeValue(t[1..])
    else if t != [] && t[0] == '+' then PositiveValue(t[1..])
    else PositiveValue(t)
  }

  /** The saturated value of the digits at the start of `u`. */
  function PositiveValue(u: string): (r: int)
    ensures 0 <= r <= INT_MAX
  {
    var v := DigitsValue(LeadingDigits(u));
    if v > INT_MAX then INT_MAX else v
  }

  /** The saturated negated value of the digits at the start of `u`. */
  function NegativeValue(u: string): (r: int)
    ensures INT_MIN <= r <= 0
  {
    var v := DigitsValue(LeadingDigits(u));
    if v > -INT_MIN then INT_MIN else 0 - v
  }

  // ---------------------------------------------------------------- %d

  /** The decimal digits of a natural number, without leading zeros. */
  function NatDigits(n: nat): (r: string)
    ensures r != [] && AllDigits(r)
  {
    if n < 10 then [DigitChar(n)] else NatDigits(n / 10) + [DigitChar(n % 10)]
  }

  /** sprintf("%d", x). */
  function IntToString(x: int): (r: string)
    ensures r != [] && NoNul(r) && '\r' !in r && ' ' !in r
  {
    var r := if x < 0 then "-" + NatDigits(-x) else NatDigits(x);
    assert forall i :: 0 <= i < |r| ==> r[i] == '-' || IsDigit(r[i]);
    r
  }

  lemma {:induction false} DigitsValueOfNatDigits(n: nat)
    ensures DigitsValue(NatDigits(n)) == n
  {
    if n >= 10 {
      var d := NatDigits(n);
      assert d[..|d| - 1] == NatDigits(n / 10);
      DigitsValueOfNatDigits(n / 10);
    }
  }

  lemma {:induction false} LeadingDigitsStop(d: string, rest: string)
    requires AllDigits(d)
    requires rest == [] || !IsDigit(rest[0])
    ensures LeadingDigits(d + rest) == d
  {
    if d != [] {
      assert (d + rest)[1..] == d[1..] + rest;
      LeadingDigitsStop(d[1..], rest);
    } else {
      assert d + rest == rest;
    }
  }

  /** The digits of n, followed by a non-digit, have the value n. */
  lemma ValueOfDigits(n: nat, rest: string)
    requires rest == [] || !IsDigit(rest[0])
    ensures DigitsValue(LeadingDigits(NatDigits(n) + rest)) == n
  {
    LeadingDigitsStop(NatDigits(n), rest);
    DigitsValueOfNatDigits(n);
  }

  /** atoi of a digit run n (at most INT_MAX) followed by a non-digit. */
  lemma AtoiPositive(n: nat, rest: string)
    requires n <= INT_MAX
    requires rest == [] || !IsDigit(rest[0])
    ensures Atoi(NatDigits(n) + rest) == n
  {
    var t := NatDigits(n) + rest;
    assert IsDigit(t[0]);
    SkipSpaces([], t);
    assert [] + t == t;
    ValueOfDigits(n, rest);
  }

  /** atoi of '-' and a digit run n (at most 2^31) followed by a non-digit. */
  lemma AtoiNegative(n: nat, rest: string)
    requires n <= -INT_MIN
    requires rest == [] || !IsDigit(rest[0])
    ensures Atoi("-" + (NatDigits(n) + rest)) == 0 - n
  {
    var t := "-" + (NatDigits(n) + rest);
    SkipSpaces([], t);
    assert [] + t == t;
    assert t[1..] == NatDigits(n) + rest;
    ValueOfDigits(n, rest);
  }

  /** White space before a number does not change what atoi reads. */
  lemma AtoiAfterSpace(ws: string, t: string)
    requires forall i :: 0 <= i < |ws| ==> IsSpace(ws[i])
    requires t == [] || !IsSpace(t[0])
    ensures Atoi(ws + t) == Atoi(t)
  {
    SkipSpaces(ws, t);
    SkipSpaces([], t);
    assert [] + t == t;
  }

  /**
    atoi reads back what `%d` wrote: for every int in range, with any
    white space before it and anything but a digit after it.
  */
  lemma AtoiOfIntToString(ws: string, x: int, rest: string)
    requires INT_MIN <= x <= INT_MAX
    requires forall i :: 0 <= i < |ws| ==> IsSpace(ws[i])
    requires rest == [] || !IsDigit(rest[0])
    ensures Atoi(ws + IntToString(x) + rest) == x
  {
    if x < 0 {
      AtoiOfNegative(ws, x, rest);
    } else {
      AtoiOfNonNegative(ws, x, rest);
    }
  }

  lemma AtoiOfNegative(ws: string, x: int, rest: string)
    requires INT_MIN <= x < 0
    requires forall i :: 0 <= i < |ws| ==> IsSpace(ws[i])
    requires rest == [] || !IsDigit(rest[0])
    ensures Atoi(ws + IntToString(x) + rest) == x
  {
    var t := "-" + (NatDigits(-x) + rest);
    Assoc(ws, IntToString(x), rest);
    Assoc("-", NatDigits(-x), rest);
    AtoiAfterSpace(ws, t);
    AtoiNegative(-x, rest);
  }

  lemma AtoiOfNonNegative(ws: string, x: int, rest: string)
    requires 0 <= x <= INT_MAX
    requires forall i :: 0 <= i < |ws| ==> IsSpace(ws[i])
    requires rest == [] || !IsDigit(rest[0])
    ensures Atoi(ws + IntToString(x) + rest) == x
  {
    var t := NatDigits(x) + rest;
    Assoc(ws, IntToString(x), rest);
    assert IsDigit(t[0]);
    AtoiAfterSpace(ws, t);
    AtoiPositive(x, rest);
  }

  lemma {:induction false} SkipSpaces(ws: string, t: string)
    requires forall i :: 0 <= i < |ws| ==> IsSpace(ws[i])
    requires t == [] || !IsSpace(t[0])
    ensures SkipSpace(ws + t) == t
  {
    if ws != [] {
      assert (ws + t)[1..] == ws[1..] + t;
      SkipSpaces(ws[1..], t);
    } else {
      assert ws + t == t;
    }
  }

  /**
    A `uint` printed with `%d` and read back with atoi into a `uint` is the
    same number, for every 32-bit value (large values travel as negatives).
  */
  lemma UintRoundTrip(ws: string, n: uint32, rest: string)
    requires forall i :: 0 <= i < |ws| ==> IsSpace(ws[i])
    requires rest == [] || !IsDigit(rest[0])
    ensures ToU32(Atoi(ws + IntToString(Signed32(n)) + rest)) == n
  {
    AtoiOfIntToString(ws, Signed32(n), rest);
  }

  /** A run of digits, a sign or a letter after the white space stops before a CR that follows. */
  lemma AtoiStopsAtCr(t: string, x: string)
    requires SkipSpace(t) != []
    requires x != [] && x[0] == '\r'
    ensures Atoi(t + x) == Atoi(t)
  {
    SkipSpaceAppend(t, x);
    SignedValueAppend(SkipSpace(t), x);
  }

  lemma SignedValueAppend(u: string, x: string)
    requires u != [] && x != [] && x[0] == '\r'
    ensures SignedValue(u + x) == SignedValue(u)
  {
    assert (u + x)[0] == u[0];
    if u[0] == '-' || u[0] == '+' {
      DropLeft(u, x, 1);
      LeadingDigitsAppend(u[1..], x);
    } else {
      LeadingDigitsAppend(u, x);
    }
  }

  lemma {:induction false} SkipSpaceAppend(t: string, x: string)
    requires SkipSpace(t) != []
    ensures SkipSpace(t + x) == SkipSpace(t) + x
  {
    assert t != [];
    assert (t + x)[0] == t[0];
    if IsSpace(t[0]) {
      assert (t + x)[1..] == t[1..] + x;
      SkipSpaceAppend(t[1..], x);
    }
  }

  lemma {:induction false} LeadingDigitsAppend(v: string, x: string)
    requires x != [] && !IsDigit(x[0])
    ensures LeadingDigits(v + x) == LeadingDigits(v)
  {
    if v == [] {
      assert v + x == x;
    } else {
      assert (v + x)[0] == v[0];
      if IsDigit(v[0]) {
        assert (v + x)[1..] == v[1..] + x;
        LeadingDigitsAppend(v[1..], x);
      }
    }
  }

  // ---------------------------------------------------------------- counting

  /** How many times `c` occurs in `s`. */
  function Count(s: string, c: char): nat {
    if s == [] then 0 else (if s[0] == c then 1 else 0) + Count(s[1..], c)
  }

  lemma {:induction false} CountSplit(a: string, b: string, c: char)
    ensures Count(a + b, c) == Count(a, c) + Count(b, c)
  {
    if a == [] {
      assert a + b == b;
    } else {
      assert (a + b)[1..] == a[1..] + b;
      CountSplit(a[1..], b, c);
    }
  }

  lemma {:induction false} CountAbsent(s: string, c: char)
    requires forall j :: 0 <= j < |s| ==> s[j] != c
    ensures Count(s, c) == 0
  {
    if s != [] {
      CountAbsent(s[1..], c);
    }
  }

  /** Splitting at the first `c`: one occurrence, then those of the rest. */
  lemma CountAtFirst(s: string, c: char, i: nat)
    requires IndexOf(s, c) == Some(i)
    ensures Count(s, c) == 1 + Count(s[i + 1..], c)
  {
    assert s == s[..i] + ([s[i]] + s[i + 1..]);
    CountSplit(s[..i], [s[i]] + s[i + 1..], c);
    CountSplit([s[i]], s[i + 1..], c);
    CountAbsent(s[..i], c);
  }

  // ---------------------------------------------------------------- pieces

  /** The total length of some pieces. */
  function Total(pieces: seq<string>): nat {
    if pieces == [] then 0 else |pieces[0]| + Total(pieces[1..])
  }

  /** Pieces one after another. */
  function Concat(pieces: seq<string>): (r: string)
    ensures |r| == Total(pieces)
  {
    if pieces == [] then [] else pieces[0] + Concat(pieces[1..])
  }

  // ---------------------------------------------------------------- lines

  /** Lines, each followed by CRLF. */
  function JoinLines(ls: seq<string>): string {
    if ls == [] then "" else ls[0] + CRLF + JoinLines(ls[1..])
  }

  /** A header line: not empty (the empty line ends a header) and without CR. */
  predicate LineOk(l: string) {
    l != [] && '\r' !in l
  }

  /** A search for CRLF stops at the end of the first line when that line holds no CR. */
  lemma {:induction false} CrlfAfterLine(line: string, rest: string)
    requires '\r' !in line
    ensures FindCrlf(line + CRLF + rest) == Some(|line|)
  {
    if line != [] {
      assert (line + CRLF + rest)[1..] == line[1..] + CRLF + rest;
      CrlfAfterLine(line[1..], rest);
    }
  }

  /** No CR, no CRLF. */
  lemma {:induction false} NoCrlf(s: string)
    requires '\r' !in s
    ensures FindCrlf(s) == None
  {
    if |s| >= 2 {
      NoCrlf(s[1..]);
    }
  }
}
