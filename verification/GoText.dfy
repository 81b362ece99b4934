/**
 The parts of Go's `strings`, `bytes` and `strconv` packages that the daemon leans on.
 A Go string is a sequence of bytes: one `char` stands for one byte.
 */
module GoText {

  datatype Option<+T> = None | Some(value: T) {
    function GetOr(default: T): T {
      if Some? then value else default
    }
  }

  const NUL: char := '\0'

  // ---------- white space ----------

  /** The ASCII characters Go trims: tab, line feed, vertical tab, form feed, carriage return and space. */
  predicate IsSpace(c: char) {
    c == ' ' || '\t' <= c <= '\r'
  }

  predicate IsBlank(s: string) {
    forall i :: 0 <= i < |s| ==> IsSpace(s[i])
  }

  function TrimLeft(s: string): string {
    if s != [] && IsSpace(s[0]) then TrimLeft(s[1..]) else s
  }

  function TrimRight(s: string): string {
    if s != [] && IsSpace(s[|s| - 1]) then TrimRight(s[..|s| - 1]) else s
  }

  function TrimSpace(s: string): string {
    TrimRight(TrimLeft(s))
  }

  /** Text that neither starts nor ends with white space is left alone. */
  lemma TrimSpaceFixed(s: string)
    requires s == [] || (!IsSpace(s[0]) && !IsSpace(s[|s| - 1]))
    ensures TrimSpace(s) == s
  {}

  lemma {:induction false} TrimLeftSpace(c: char, s: string)
    requires IsSpace(c)
    ensures TrimLeft([c] + s) == TrimLeft(s)
  {
    assert ([c] + s)[1..] == s;
  }

  lemma {:induction false} TrimRightSpace(s: string, c: char)
    requires IsSpace(c)
    ensures TrimRight(s + [c]) == TrimRight(s)
  {
    assert (s + [c])[..|s|] == s;
  }

  lemma {:induction false} TrimSpaceLeading(c: char, s: string)
    requires IsSpace(c)
    ensures TrimSpace([c] + s) == TrimSpace(s)
  {
    TrimLeftSpace(c, s);
  }

  lemma {:induction false} TrimSpaceTrailing(s: string, c: char)
    requires IsSpace(c)
    ensures TrimSpace(s + [c]) == TrimSpace(s)
  {
    if s == [] {
      TrimLeftSpace(c, []);
      assert s + [c] == [c] + s;
    } else if IsSpace(s[0]) {
      assert s == [s[0]] + s[1..];
      assert s + [c] == [s[0]] + (s[1..] + [c]);
      TrimSpaceLeading(s[0], s[1..]);
      TrimSpaceLeading(s[0], s[1..] + [c]);
      TrimSpaceTrailing(s[1..], c);
    } else {
      TrimRightSpace(s, c);
    }
  }

  lemma {:induction false} TrimSpaceBlank(s: string)
    ensures TrimSpace(s) == [] <==> IsBlank(s)
  {
    if s == [] {
    } else if IsSpace(s[0]) {
      assert s == [s[0]] + s[1..];
      TrimSpaceLeading(s[0], s[1..]);
      TrimSpaceBlank(s[1..]);
    } else {
      TrimRightKeepsHead(s);
    }
  }

  lemma {:induction false} TrimRightKeepsHead(s: string)
    requires s != [] && !IsSpace(s[0])
    ensures TrimRight(s) != []
  {
    if IsSpace(s[|s| - 1]) {
      TrimRightKeepsHead(s[..|s| - 1]);
    }
  }

  /** White space goes at both ends, and nothing else. */
  lemma TrimSpaceMeaning(s: string) returns (front: string, back: string)
    ensures s == front + TrimSpace(s) + back && IsBlank(front) && IsBlank(back)
    ensures var t := TrimSpace(s); t == "" || (!IsSpace(t[0]) && !IsSpace(t[|t| - 1]))
  {
    var n := TrimLeftMeaning(s);
    var m := TrimRightMeaning(TrimLeft(s));
    front, back := s[..n], TrimLeft(s)[m..];
  }

  lemma {:induction false} TrimLeftMeaning(s: string) returns (n: nat)
    ensures n <= |s| && TrimLeft(s) == s[n..] && IsBlank(s[..n])
    ensures n < |s| ==> !IsSpace(s[n])
  {
    n := 0;
    if s != [] && IsSpace(s[0]) {
      n := TrimLeftMeaning(s[1..]);
      n := n + 1;
      assert s[..n][1..] == s[1..][..n - 1];
    }
  }

  lemma {:induction false} TrimRightMeaning(s: string) returns (n: nat)
    ensures n <= |s| && TrimRight(s) == s[..n] && IsBlank(s[n..])
    ensures n > 0 ==> !IsSpace(s[n - 1])
  {
    n := |s|;
    if s != [] && IsSpace(s[|s| - 1]) {
      n := TrimRightMeaning(s[..|s| - 1]);
      assert s[n..] == s[..|s| - 1][n..] + [s[|s| - 1]];
      assert s[..|s| - 1][..n] == s[..n];
    }
  }

  // ---------- substrings ----------

  predicate OccursAt(s: string, sub: string, i: nat) {
    i <= |s| && sub <= s[i..]
  }

  /** strings.Contains */
  predicate Contains(s: string, sub: string) {
    exists i :: 0 <= i <= |s| && OccursAt(s, sub, i)
  }

  lemma ContainsTransitive(s: string, mid: string, sub: string)
    requires Contains(s, mid) && Contains(mid, sub)
    ensures Contains(s, sub)
  {
    var i :| 0 <= i <= |s| && OccursAt(s, mid, i);
    var j :| 0 <= j <= |mid| && OccursAt(mid, sub, j);
    assert s[i..][..|mid|] == mid;
    assert s[i + j..][..|sub|] == mid[j..][..|sub|];
    assert OccursAt(s, sub, i + j);
  }

  lemma ContainsNeedsChar(s: string, sub: string, c: char)
    requires c in sub && c !in s
    ensures !Contains(s, sub)
  {}

  // ---------- splitting and joining ----------

  /** strings.Split and bytes.Split for a one-byte separator: never empty. */
  function Split(s: string, sep: char): (parts: seq<string>)
    ensures |parts| >= 1
  {
    if s == [] then [[]] else Prepend(s[0], Split(s[1..], sep), sep)
  }

  /** Splitting text with one more character in front. */
  function Prepend(c: char, parts: seq<string>, sep: char): (r: seq<string>)
    requires |parts| >= 1
  {
    if c == sep then [[]] + parts else [[c] + parts[0]] + parts[1..]
  }

  lemma {:induction false} SplitFree(s: string, sep: char)
    ensures forall i :: 0 <= i < |Split(s, sep)| ==> sep !in Split(s, sep)[i]
  {
    if s != [] {
      SplitFree(s[1..], sep);
    }
  }

  /** The first part is the text up to the first separator. */
  lemma {:induction false} SplitHead(s: string, sep: char)
    ensures var head := Split(s, sep)[0]; sep !in head && head <= s && (head == s || s[|head|] == sep)
  {
    if s != [] {
      SplitHead(s[1..], sep);
    }
  }

  /** strings.Join */
  function Join(parts: seq<string>, sep: string): string {
    if parts == [] then []
    else if |parts| == 1 then parts[0]
    else parts[0] + sep + Join(parts[1..], sep)
  }

  lemma SplitCons(c: char, s: string, sep: char)
    ensures Split([c] + s, sep) == Prepend(c, Split(s, sep), sep)
  {
    assert ([c] + s)[1..] == s;
  }

  lemma PrependConcat(c: char, a: seq<string>, b: seq<string>, sep: char)
    requires |a| >= 1
    ensures Prepend(c, a + b, sep) == Prepend(c, a, sep) + b
  {
    assert (a + b)[1..] == a[1..] + b;
    assert [[]] + (a + b) == [[]] + a + b;
  }

  lemma {:induction false} SplitConcat(a: string, sep: char, b: string)
    ensures Split(a + [sep] + b, sep) == Split(a, sep) + Split(b, sep)
  {
    if a == [] {
      assert a + [sep] + b == [sep] + b;
      SplitCons(sep, b, sep);
    } else {
      SplitConcat(a[1..], sep, b);
      assert a + [sep] + b == [a[0]] + (a[1..] + [sep] + b);
      SplitCons(a[0], a[1..] + [sep] + b, sep);
      PrependConcat(a[0], Split(a[1..], sep), Split(b, sep), sep);
    }
  }

  lemma {:induction false} SplitWhole(a: string, sep: char)
    requires sep !in a
    ensures Split(a, sep) == [a]
  {
    if a != [] {
      SplitWhole(a[1..], sep);
      assert a == [a[0]] + a[1..];
    }
  }

  lemma {:induction false} SplitJoin(parts: seq<string>, sep: char)
    requires parts != [] && forall i :: 0 <= i < |parts| ==> sep !in parts[i]
    ensures Split(Join(parts, [sep]), sep) == parts
  {
    SplitWhole(parts[0], sep);
    if |parts| > 1 {
      SplitConcat(parts[0], sep, Join(parts[1..], [sep]));
      SplitJoin(parts[1..], sep);
    }
  }

  lemma {:induction false} JoinSplit(s: string, sep: char)
    ensures Join(Split(s, sep), [sep]) == s
  {
    if s != [] {
      JoinSplit(s[1..], sep);
      var rest := Split(s[1..], sep);
      if s[0] == sep {
        assert ([[]] + rest)[1..] == rest;
      } else {
        var whole := [[s[0]] + rest[0]] + rest[1..];
        if |rest| > 1 {
          assert whole[1..] == rest[1..];
        }
      }
      assert s == [s[0]] + s[1..];
    }
  }

  // ---------- decimal numbers ----------

  const INT64_MAX: nat := 0x7FFF_FFFF_FFFF_FFFF
  const UINT32_MAX: nat := 4294967295

  predicate IsDigit(c: char) {
    '0' <= c <= '9'
  }

  predicate AllDigits(s: string) {
    forall i :: 0 <= i < |s| ==> IsDigit(s[i])
  }

  function Value(s: string): nat
    requires AllDigits(s)
  {
    if s == [] then 0 else 10 * Value(s[..|s| - 1]) + (s[|s| - 1] as nat - '0' as nat)
  }

  /** strconv.ParseInt(s, 10, 0) and strconv.Atoi on a 64-bit platform. */
  function ParseInt(s: string): (r: Option<int>)
    ensures r.Some? ==> -(INT64_MAX + 1) <= r.value <= INT64_MAX
  {
    var signed := s != [] && (s[0] == '+' || s[0] == '-');
    var digits := if signed then s[1..] else s;
    if digits == [] || !AllDigits(digits) then None
    else
      var n := Value(digits);
      if signed && s[0] == '-' then
        if n <= INT64_MAX + 1 then Some(-(n as int)) else None
      else
        if n <= INT64_MAX then Some(n) else None
  }

  /** Printing with %u. */
  function Decimal(n: nat): (s: string)
    ensures s != [] && AllDigits(s)
  {
    var last := [('0' as nat + n % 10) as char];
    if n < 10 then last else Decimal(n / 10) + last
  }

  lemma {:induction false} ValueOfDecimal(n: nat)
    ensures Value(Decimal(n)) == n
  {
    var s := Decimal(n);
    if n < 10 {
      assert s[..0] == [];
    } else {
      ValueOfDecimal(n / 10);
      assert s[..|s| - 1] == Decimal(n / 10);
    }
  }

  /** What digits mean with and without a sign, and the bounds of 64 bits. */
  lemma ParseOfSigned(digits: string)
    requires digits != "" && AllDigits(digits)
    ensures ParseInt(digits) == ParseInt("+" + digits) ==
            if Value(digits) <= 0x7FFF_FFFF_FFFF_FFFF then Some(Value(digits)) else None
    ensures ParseInt("-" + digits) ==
            if Value(digits) <= 0x8000_0000_0000_0000 then Some(-(Value(digits) as int)) else None
  {
    var plus, minus := "+" + digits, "-" + digits;
    assert plus[1..] == digits && minus[1..] == digits && plus[0] == '+' && minus[0] == '-';
    assert IsDigit(digits[0]);
  }

  lemma ParseOfDecimal(n: nat)
    requires n <= INT64_MAX
    ensures ParseInt(Decimal(n)) == Some(n)
  {
    ValueOfDecimal(n);
    ParseOfSigned(Decimal(n));
  }

  /** A character that is neither a sign nor a digit makes the whole field unreadable. */
  lemma ParseNeedsDigits(s: string, c: char)
    requires c in s && !IsDigit(c) && c != '+' && c != '-'
    ensures ParseInt(s) == None
  {
    var k :| 0 <= k < |s| && s[k] == c;
    if s[0] == '+' || s[0] == '-' {
      assert s[1..][k - 1] == c;
    }
  }

  /** Ten or more digits are exactly the numbers from 10^9 on. */
  lemma {:induction false} DecimalWidth(n: nat, k: nat)
    ensures |Decimal(n)| <= k + 1 <==> n < 10 * Power10(k)
  {
    if n >= 10 {
      if k == 0 {
        assert Decimal(n / 10) != [];
      } else {
        DecimalWidth(n / 10, k - 1);
        assert n / 10 < Power10(k) <==> n < 10 * Power10(k);
      }
    } else {
      Power10Positive(k);
    }
  }

  function Power10(k: nat): nat {
    if k == 0 then 1 else 10 * Power10(k - 1)
  }

  lemma Power10Positive(k: nat)
    ensures Power10(k) >= 1
  {}
}
