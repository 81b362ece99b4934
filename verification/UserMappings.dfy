/** readUserMappings of proc/proc.go, against the kernel's uid_map format. */
module UserMappings {
  import opened GoText
  import opened ProcFile

  datatype UserMapping = UserMapping(containerId: int, hostId: int, range: int)

  /** The mapping of a process outside every user namespace. */
  const IDENTITY := UserMapping(0, 0, UINT32_MAX)

  /** The returned pair, or the index panic of a token list that stops inside a group of three. */
  datatype Outcome = Mappings(userNs: bool, list: seq<UserMapping>) | IndexPanic

  const NOT_NAMESPACED := Mappings(false, [])

  function Tokens(f: string): seq<string> {
    NonEmpty(Split(f, ' '))
  }

  /** Each token read as a number, None where that fails. */
  function Ints(parts: seq<string>): (r: seq<Option<int>>)
    ensures |r| == |parts|
  {
    seq(|parts|, i requires 0 <= i < |parts| => ParseInt(parts[i]))
  }

  function MappingOf(nsu: Option<int>, hu: Option<int>, r: Option<int>): Option<UserMapping> {
    if nsu.Some? && hu.Some? && r.Some? then Some(UserMapping(nsu.value, hu.value, r.value)) else None
  }

  /** The groups of three from the front of a list of numbers. */
  function ReadGroups(nums: seq<Option<int>>): Outcome {
    if nums == [] then Mappings(true, [])
    else if |nums| < 3 then IndexPanic
    else
      var m := MappingOf(nums[0], nums[1], nums[2]);
      if m == None || m.value == IDENTITY then NOT_NAMESPACED else After([m.value], ReadGroups(nums[3..]))
  }

  function After(ms: seq<UserMapping>, o: Outcome): Outcome {
    if o.Mappings? && o.userNs then o.(list := ms + o.list) else o
  }

  function UserMappingsOf(f: string): Outcome {
    if |Tokens(f)| < 3 then NOT_NAMESPACED else ReadGroups(Ints(Tokens(f)))
  }

  method ReadUserMappings(f: string) returns (o: Outcome)
    ensures o == UserMappingsOf(f)
  {
    var parts := Split(f, ' ');
    parts := DeleteEmpty(parts);
    if |parts| < 3 {
      return NOT_NAMESPACED;
    }
    o := ReadParts(parts);
  }

  /** The three conversions of one group. */
  method ParseMapping(nsu: string, hu: string, r: string) returns (m: Option<UserMapping>)
    ensures m == MappingOf(ParseInt(nsu), ParseInt(hu), ParseInt(r))
  {
    var containerId := ParseInt(nsu);
    if containerId.None? {
      return None;
    }
    var hostId := ParseInt(hu);
    if hostId.None? {
      return None;
    }
    var range := ParseInt(r);
    if range.None? {
      return None;
    }
    return Some(UserMapping(containerId.value, hostId.value, range.value));
  }

  /** The loop over the tokens. */
  method ReadParts(parts: seq<string>) returns (o: Outcome)
    ensures o == ReadGroups(Ints(parts))
  {
    ghost var nums := Ints(parts);
    var mappings := [];
    var i := 0;
    while i < |parts|
      invariant 0 <= i <= |parts|
      invariant After(mappings, ReadGroups(nums[i..])) == ReadGroups(nums)
    {
      if i + 2 >= |parts| {
        return IndexPanic;
      }
      assert nums[i..][3..] == nums[i + 3..];
      var parsed := ParseMapping(parts[i], parts[i + 1], parts[i + 2]);
      if parsed.None? {
        return NOT_NAMESPACED;
      }
      var mapping := parsed.value;
      if mapping.containerId == 0 && mapping.hostId == 0 && mapping.range == UINT32_MAX {
        return NOT_NAMESPACED;
      }
      AfterTwice(mappings, [mapping], ReadGroups(nums[i + 3..]));
      mappings := mappings + [mapping];
      i := i + 3;
    }
    o := Mappings(true, mappings);
  }

  lemma AfterTwice(a: seq<UserMapping>, b: seq<UserMapping>, o: Outcome)
    ensures After(a, After(b, o)) == After(a + b, o)
  {
    if o.Mappings? {
      assert a + (b + o.list) == a + b + o.list;
    }
  }

  // ---------- what the result means for any tokens ----------

  predicate Complete(nums: seq<Option<int>>, k: nat) {
    3 * k + 3 <= |nums|
  }

  /** Group k reads as a mapping other than the identity. */
  predicate GoodGroup(nums: seq<Option<int>>, k: nat)
    requires Complete(nums, k)
  {
    var m := MappingOf(nums[3 * k], nums[3 * k + 1], nums[3 * k + 2]);
    m.Some? && m.value != IDENTITY
  }

  ghost predicate GoodGroups(nums: seq<Option<int>>) {
    forall k: nat :: Complete(nums, k) ==> GoodGroup(nums, k)
  }

  lemma GoodGroupShift(nums: seq<Option<int>>, k: nat)
    requires |nums| >= 3
    ensures Complete(nums[3..], k) <==> Complete(nums, k + 1)
    ensures Complete(nums, k + 1) ==> (GoodGroup(nums[3..], k) <==> GoodGroup(nums, k + 1))
  {
    if Complete(nums, k + 1) {
      assert nums[3..][3 * k] == nums[3 * (k + 1)];
    }
  }

  lemma GoodGroupsCons(nums: seq<Option<int>>)
    requires |nums| >= 3
    ensures GoodGroups(nums) <==> GoodGroup(nums, 0) && GoodGroups(nums[3..])
  {
    assert Complete(nums, 0);
    if GoodGroup(nums, 0) && GoodGroups(nums[3..]) {
      forall k: nat | Complete(nums, k) ensures GoodGroup(nums, k) {
        if k > 0 {
          GoodGroupShift(nums, k - 1);
          assert Complete(nums[3..], k - 1);
        }
      }
    }
    if GoodGroups(nums) {
      forall k: nat | Complete(nums[3..], k) ensures GoodGroup(nums[3..], k) {
        GoodGroupShift(nums, k);
        assert Complete(nums, k + 1);
      }
    }
  }

  /**
   Every complete group must be good for the reader to go on: then it succeeds or panics according to whether
   the token count is a multiple of three, and otherwise it gives up before any index is out of bounds.
   */
  lemma {:induction false} ReadGroupsMeaning(nums: seq<Option<int>>)
    ensures ReadGroups(nums) == IndexPanic <==> GoodGroups(nums) && |nums| % 3 != 0
    ensures ReadGroups(nums).Mappings? && ReadGroups(nums).userNs <==> GoodGroups(nums) && |nums| % 3 == 0
    ensures ReadGroups(nums) == NOT_NAMESPACED <==> !GoodGroups(nums)
  {
    if |nums| < 3 {
      assert forall k: nat :: !Complete(nums, k);
    } else {
      assert Complete(nums, 0);
      GoodGroupsCons(nums);
      assert |nums[3..]| % 3 == |nums| % 3;
      ReadGroupsMeaning(nums[3..]);
    }
  }

  // ---------- tokens ----------

  lemma TokensSpace(a: string, b: string)
    ensures Tokens(a + [' '] + b) == Tokens(a) + Tokens(b)
  {
    SplitConcat(a, ' ', b);
    NonEmptyConcat(Split(a, ' '), Split(b, ' '));
  }

  lemma TokensWord(w: string)
    requires w != [] && ' ' !in w && !IsSpace(w[0]) && !IsSpace(w[|w| - 1])
    ensures Tokens(w) == [w]
  {
    SplitWhole(w, ' ');
    TrimSpaceFixed(w);
    assert NonEmpty([w]) == [TrimSpace(w)] + NonEmpty([w][1..]);
  }

  lemma NonEmptyFirst(a: string, b: string, rest: seq<string>)
    requires TrimSpace(a) == TrimSpace(b)
    ensures NonEmpty([a] + rest) == NonEmpty([b] + rest)
  {
    assert ([a] + rest)[1..] == rest && ([b] + rest)[1..] == rest;
  }

  lemma TokensLeading(c: char, s: string)
    requires IsSpace(c)
    ensures Tokens([c] + s) == Tokens(s)
  {
    var parts := Split(s, ' ');
    SplitCons(c, s, ' ');
    if c == ' ' {
      assert ([[]] + parts)[1..] == parts;
    } else {
      TrimSpaceLeading(c, parts[0]);
      NonEmptyFirst([c] + parts[0], parts[0], parts[1..]);
      assert [parts[0]] + parts[1..] == parts;
    }
  }

  lemma {:induction false} TokensTrailing(s: string, c: char)
    requires IsSpace(c)
    ensures Tokens(s + [c]) == Tokens(s)
  {
    if ' ' in s {
      var k :| 0 <= k < |s| && s[k] == ' ';
      var a, b := s[..k], s[k + 1..];
      assert s == a + [' '] + b && s + [c] == a + [' '] + (b + [c]);
      TokensSpace(a, b);
      TokensSpace(a, b + [c]);
      TokensTrailing(b, c);
    } else if c == ' ' {
      assert s + [c] == s + [' '] + [];
      TokensSpace(s, []);
      assert Tokens([]) == [];
    } else {
      SplitWhole(s, ' ');
      SplitWhole(s + [c], ' ');
      TrimSpaceTrailing(s, c);
      NonEmptyFirst(s, s + [c], []);
      assert [s] + [] == [s] && [s + [c]] + [] == [s + [c]];
    }
  }

  lemma {:induction false} TokensTrimLeft(s: string)
    ensures Tokens(TrimLeft(s)) == Tokens(s)
  {
    if s != [] && IsSpace(s[0]) {
      TokensTrimLeft(s[1..]);
      TokensLeading(s[0], s[1..]);
      assert s == [s[0]] + s[1..];
    }
  }

  lemma {:induction false} TokensTrimRight(s: string)
    ensures Tokens(TrimRight(s)) == Tokens(s)
  {
    if s != [] && IsSpace(s[|s| - 1]) {
      var t := s[..|s| - 1];
      TokensTrimRight(t);
      TokensTrailing(t, s[|s| - 1]);
      assert s == t + [s[|s| - 1]];
    }
  }

  /**
   What reading any text gives: fewer than three tokens never reach the loop, so that an index fails exactly if
   there are more than three, their number is no multiple of three and every complete group is good.
   */
  lemma UserMappingsMeaning(f: string)
    ensures var n, good := |Tokens(f)|, GoodGroups(Ints(Tokens(f)));
            && (UserMappingsOf(f) == IndexPanic <==> n > 3 && n % 3 != 0 && good)
            && (UserMappingsOf(f).Mappings? && UserMappingsOf(f).userNs <==> n >= 3 && n % 3 == 0 && good)
            && (UserMappingsOf(f) == NOT_NAMESPACED <==> n < 3 || !good)
  {
    ReadGroupsMeaning(Ints(Tokens(f)));
  }

  /** Trimming the file first, as readFileString does, changes no result. */
  lemma TrimmingIsHarmless(f: string)
    ensures UserMappingsOf(TrimSpace(f)) == UserMappingsOf(f)
  {
    TokensTrimLeft(f);
    TokensTrimRight(TrimLeft(f));
  }

  // ---------- the kernel's form ----------

  const WIDTH: nat := 10

  function Spaces(n: nat): (s: string)
    ensures |s| == n && forall i :: 0 <= i < n ==> s[i] == ' '
  {
    seq(n, i => ' ')
  }

  /** %10u */
  function Pad(n: nat): string {
    var d := Decimal(n);
    Spaces(if |d| < WIDTH then WIDTH - |d| else 0) + d
  }

  predicate Printable(m: UserMapping) {
    && 0 <= m.containerId <= 0x7FFF_FFFF_FFFF_FFFF && 0 <= m.hostId <= 0x7FFF_FFFF_FFFF_FFFF
    && 0 <= m.range <= 0x7FFF_FFFF_FFFF_FFFF
  }

  function Line(m: UserMapping): string
    requires Printable(m)
  {
    Pad(m.containerId) + [' '] + (Pad(m.hostId) + [' '] + Pad(m.range))
  }

  /** The text of a uid_map file. */
  function UidMap(ms: seq<UserMapping>): string
    requires forall m :: m in ms ==> Printable(m)
  {
    if ms == [] then [] else Line(ms[0]) + ['\n'] + UidMap(ms[1..])
  }

  function Numbers(m: UserMapping): seq<string>
    requires Printable(m)
  {
    [Decimal(m.containerId), Decimal(m.hostId), Decimal(m.range)]
  }

  /** The container ID is short enough for its column, so that the line starts with a space. */
  predicate Narrow(m: UserMapping) {
    m.containerId < 1_000_000_000
  }

  lemma {:induction false} TokensIndented(n: nat, s: string)
    ensures Tokens(Spaces(n) + s) == Tokens(s)
  {
    if n == 0 {
      assert Spaces(0) + s == s;
    } else {
      TokensIndented(n - 1, s);
      TokensLeading(' ', Spaces(n - 1) + s);
      assert Spaces(n) + s == [' '] + (Spaces(n - 1) + s);
    }
  }

  lemma DecimalIsWord(n: nat)
    ensures var d := Decimal(n); ' ' !in d && !IsSpace(d[0]) && !IsSpace(d[|d| - 1])
  {
    var d := Decimal(n);
    assert IsDigit(d[0]) && IsDigit(d[|d| - 1]);
  }

  lemma TokensPad(n: nat)
    ensures Tokens(Pad(n)) == [Decimal(n)]
  {
    var d := Decimal(n);
    TokensIndented(if |d| < WIDTH then WIDTH - |d| else 0, d);
    DecimalIsWord(n);
    TokensWord(d);
  }

  lemma TokensLine(m: UserMapping)
    requires Printable(m)
    ensures Tokens(Line(m)) == Numbers(m)
  {
    TokensPad(m.containerId);
    TokensPad(m.hostId);
    TokensPad(m.range);
    TokensSpace(Pad(m.hostId), Pad(m.range));
    TokensSpace(Pad(m.containerId), Pad(m.hostId) + [' '] + Pad(m.range));
  }

  lemma NarrowStartsWithSpace(n: nat)
    ensures n < 1_000_000_000 <==> |Decimal(n)| < WIDTH
  {
    assert Power10(8) == 100_000_000 by {
      assert Power10(4) == 10_000;
      assert Power10(8) == 10_000 * Power10(4);
    }
    DecimalWidth(n, 8);
  }

  lemma TokensThenIndented(line: string, rest: string)
    requires rest == [] || rest[0] == ' '
    ensures Tokens(line + ['\n'] + rest) == Tokens(line) + Tokens(rest)
  {
    TokensTrailing(line, '\n');
    if rest == [] {
      assert line + ['\n'] + rest == line + ['\n'];
      assert Tokens([]) == [];
    } else {
      var t := rest[1..];
      assert rest == [' '] + t;
      assert line + ['\n'] + rest == (line + ['\n']) + [' '] + t;
      TokensSpace(line + ['\n'], t);
      TokensLeading(' ', t);
    }
  }

  lemma NarrowTextIsIndented(ms: seq<UserMapping>)
    requires (forall x :: x in ms ==> Printable(x)) && ms != [] && Narrow(ms[0])
    ensures UidMap(ms) != [] && UidMap(ms)[0] == ' '
  {
    assert Printable(ms[0]);
    NarrowStartsWithSpace(ms[0].containerId);
    assert Pad(ms[0].containerId)[0] == ' ';
    assert Line(ms[0])[0] == ' ';
  }

  /** A line whose successor starts with a space contributes its own three numbers. */
  lemma TokensNarrow(m: UserMapping, ms: seq<UserMapping>)
    requires Printable(m) && forall x :: x in ms ==> Printable(x)
    requires ms != [] ==> Narrow(ms[0])
    ensures Tokens(UidMap([m] + ms)) == Numbers(m) + Tokens(UidMap(ms))
  {
    assert ([m] + ms)[1..] == ms;
    if ms != [] {
      NarrowTextIsIndented(ms);
    }
    TokensLine(m);
    TokensThenIndented(Line(m), UidMap(ms));
  }

  lemma GluedLayout(c: string, h: string, n: nat, d: string, d': string, q: string, rest: string)
    ensures c + [' '] + (h + [' '] + (Spaces(n) + d)) + ['\n'] + (d' + [' '] + q + rest) ==
            (c + [' '] + h + Spaces(n)) + [' '] + ((d + ['\n'] + d') + [' '] + (q + rest))
  {
    assert [' '] + Spaces(n) == Spaces(n) + [' '];
    assert h + [' '] + (Spaces(n) + d) == h + ([' '] + Spaces(n)) + d;
  }

  lemma {:induction false} TokensBeforeSpaces(s: string, n: nat)
    ensures Tokens(s + Spaces(n)) == Tokens(s)
  {
    if n == 0 {
      assert s + Spaces(0) == s;
    } else {
      TokensBeforeSpaces(s, n - 1);
      TokensTrailing(s + Spaces(n - 1), ' ');
      assert s + Spaces(n) == (s + Spaces(n - 1)) + [' '];
    }
  }

  lemma GluedWord(head: string, d: nat, d': nat, tail: string)
    ensures var word := Decimal(d) + ['\n'] + Decimal(d');
            '\n' in word && Tokens(head + [' '] + (word + [' '] + tail)) == Tokens(head) + ([word] + Tokens(tail))
  {
    var word := Decimal(d) + ['\n'] + Decimal(d');
    DecimalIsWord(d);
    DecimalIsWord(d');
    TokensWord(word);
    TokensSpace(head, word + [' '] + tail);
    TokensSpace(word, tail);
    assert word[|Decimal(d)|] == '\n';
  }

  lemma GluedHead(m: UserMapping, n: nat)
    requires Printable(m)
    ensures Tokens(Pad(m.containerId) + [' '] + Pad(m.hostId) + Spaces(n)) == [Decimal(m.containerId), Decimal(m.hostId)]
  {
    var line := Pad(m.containerId) + [' '] + Pad(m.hostId);
    TokensBeforeSpaces(line, n);
    TokensSpace(Pad(m.containerId), Pad(m.hostId));
    TokensPad(m.containerId);
    TokensPad(m.hostId);
  }

  /** A number that fills its column is printed without padding. */
  lemma WidePad(n: nat)
    requires n >= 1_000_000_000
    ensures Pad(n) == Decimal(n)
  {
    NarrowStartsWithSpace(n);
    assert Spaces(0) + Decimal(n) == Decimal(n);
  }

  lemma UidMapTwoLines(m: UserMapping, ms: seq<UserMapping>)
    requires Printable(m) && (forall x :: x in ms ==> Printable(x)) && ms != []
    ensures Printable(ms[0]) && (forall x :: x in [m] + ms ==> Printable(x))
    ensures UidMap([m] + ms) == Line(m) + ['\n'] + (Line(ms[0]) + (['\n'] + UidMap(ms[1..])))
  {
    assert ([m] + ms)[1..] == ms;
    assert Line(ms[0]) + (['\n'] + UidMap(ms[1..])) == UidMap(ms);
  }

  /** A line that starts with a digit is glued to the last number of the line before it. */
  lemma TokensWide(m: UserMapping, ms: seq<UserMapping>) returns (glued: string, later: seq<string>)
    requires Printable(m) && forall x :: x in ms ==> Printable(x)
    requires ms != [] && !Narrow(ms[0])
    ensures '\n' in glued
    ensures Tokens(UidMap([m] + ms)) == [Decimal(m.containerId), Decimal(m.hostId)] + ([glued] + later)
  {
    UidMapTwoLines(m, ms);
    var next, d := ms[0], Decimal(m.range);
    WidePad(next.containerId);
    var indent := if |d| < WIDTH then WIDTH - |d| else 0;
    var q, rest := Pad(next.hostId) + [' '] + Pad(next.range), ['\n'] + UidMap(ms[1..]);
    GluedLayout(Pad(m.containerId), Pad(m.hostId), indent, d, Decimal(next.containerId), q, rest);
    GluedWord(Pad(m.containerId) + [' '] + Pad(m.hostId) + Spaces(indent), m.range, next.containerId, q + rest);
    GluedHead(m, indent);
    glued, later := d + ['\n'] + Decimal(next.containerId), Tokens(q + rest);
  }

  lemma UnreadableThird(a: string, b: string, glued: string, later: seq<string>)
    requires '\n' in glued
    ensures ReadGroups(Ints([a, b] + ([glued] + later))) == NOT_NAMESPACED
  {
    ParseNeedsDigits(glued, '\n');
  }

  /** Reading stops at a glued token, which always stands where a complete group has its range. */
  lemma {:induction false} WideLineStopsReading(ms: seq<UserMapping>, i: nat)
    requires forall x :: x in ms ==> Printable(x)
    requires 0 < i < |ms| && !Narrow(ms[i])
    ensures ReadGroups(Ints(Tokens(UidMap(ms)))) == NOT_NAMESPACED
  {
    var m, rest := ms[0], ms[1..];
    assert ms == [m] + rest;
    if !Narrow(ms[1]) {
      var glued, later := TokensWide(m, rest);
      UnreadableThird(Decimal(m.containerId), Decimal(m.hostId), glued, later);
    } else {
      WideLineStopsReading(rest, i - 1);
      TokensNarrow(m, rest);
      IntsConcat(Numbers(m), Tokens(UidMap(rest)));
      IntsOfNumbers(m);
      ReadOneMore(m, Ints(Tokens(UidMap(rest))));
    }
  }

  lemma ReadOneMore(m: UserMapping, nums: seq<Option<int>>)
    requires ReadGroups(nums) == NOT_NAMESPACED
    ensures ReadGroups([Some(m.containerId), Some(m.hostId), Some(m.range)] + nums) == NOT_NAMESPACED
  {
    assert ([Some(m.containerId), Some(m.hostId), Some(m.range)] + nums)[3..] == nums;
  }

  function AllNumbers(ms: seq<UserMapping>): seq<string>
    requires forall m :: m in ms ==> Printable(m)
  {
    if ms == [] then [] else Numbers(ms[0]) + AllNumbers(ms[1..])
  }

  lemma {:induction false} TokensOfUidMap(ms: seq<UserMapping>)
    requires forall m :: m in ms ==> Printable(m)
    requires forall i :: 0 < i < |ms| ==> Narrow(ms[i])
    ensures Tokens(UidMap(ms)) == AllNumbers(ms)
  {
    if ms == [] {
      assert Tokens([]) == [];
    } else {
      assert ms == [ms[0]] + ms[1..];
      TokensNarrow(ms[0], ms[1..]);
      TokensOfUidMap(ms[1..]);
    }
  }

  function AllInts(ms: seq<UserMapping>): seq<Option<int>> {
    if ms == [] then [] else [Some(ms[0].containerId), Some(ms[0].hostId), Some(ms[0].range)] + AllInts(ms[1..])
  }

  lemma IntsOfNumbers(m: UserMapping)
    requires Printable(m)
    ensures Ints(Numbers(m)) == [Some(m.containerId), Some(m.hostId), Some(m.range)]
  {
    ParseOfDecimal(m.containerId);
    ParseOfDecimal(m.hostId);
    ParseOfDecimal(m.range);
  }

  lemma IntsConcat(a: seq<string>, b: seq<string>)
    ensures Ints(a + b) == Ints(a) + Ints(b)
  {}

  lemma {:induction false} IntsOfAllNumbers(ms: seq<UserMapping>)
    requires forall m :: m in ms ==> Printable(m)
    ensures Ints(AllNumbers(ms)) == AllInts(ms)
  {
    if ms != [] {
      assert Printable(ms[0]);
      IntsOfNumbers(ms[0]);
      IntsConcat(Numbers(ms[0]), AllNumbers(ms[1..]));
      IntsOfAllNumbers(ms[1..]);
    }
  }

  lemma {:induction false} ReadAllInts(ms: seq<UserMapping>)
    ensures |AllInts(ms)| == 3 * |ms|
    ensures ReadGroups(AllInts(ms)) == if IDENTITY in ms then NOT_NAMESPACED else Mappings(true, ms)
  {
    if ms != [] {
      var m, nums := ms[0], AllInts(ms);
      ReadAllInts(ms[1..]);
      assert nums[3..] == AllInts(ms[1..]);
      assert MappingOf(nums[0], nums[1], nums[2]) == Some(m);
      assert ms == [m] + ms[1..];
    }
  }

  lemma ReadGroupAndOne(m: UserMapping, n: int)
    requires m != IDENTITY
    ensures ReadGroups([Some(m.containerId), Some(m.hostId), Some(m.range)] + [Some(n)]) == IndexPanic
  {
    assert ([Some(m.containerId), Some(m.hostId), Some(m.range)] + [Some(n)])[3..] == [Some(n)];
  }

  /** A fourth number after a good group makes an index fail. */
  lemma FourthNumberPanics(m: UserMapping, n: nat)
    requires Printable(m) && m != IDENTITY && n <= INT64_MAX
    ensures UserMappingsOf(Line(m) + [' '] + Decimal(n)) == IndexPanic
  {
    var line, d := Line(m), Decimal(n);
    TokensLine(m);
    DecimalIsWord(n);
    TokensWord(d);
    TokensSpace(line, d);
    ParseOfDecimal(n);
    IntsOfNumbers(m);
    IntsConcat(Numbers(m), [d]);
    assert Ints([d]) == [Some(n)];
    ReadGroupAndOne(m, n);
  }

  /** What the caller can check beforehand: every line after the first starts with a space. */
  predicate LinesAreSeparated(ms: seq<UserMapping>) {
    forall i :: 0 < i < |ms| ==> Narrow(ms[i])
  }

  /**
   Reading back a printed uid_map returns the same list if there is a mapping, none is the identity and every later
   line starts with a space. Otherwise the answer is "no namespace": the kernel's text never makes an index fail.
   */
  lemma UidMapRoundTrip(ms: seq<UserMapping>)
    requires forall m :: m in ms ==> Printable(m)
    ensures UserMappingsOf(TrimSpace(UidMap(ms))) ==
            if ms != [] && UserMapping(0, 0, 4294967295) !in ms && LinesAreSeparated(ms) then Mappings(true, ms)
            else NOT_NAMESPACED
  {
    TrimmingIsHarmless(UidMap(ms));
    if LinesAreSeparated(ms) {
      TokensOfUidMap(ms);
      IntsOfAllNumbers(ms);
      ReadAllInts(ms);
    } else {
      var i :| 0 < i < |ms| && !Narrow(ms[i]);
      WideLineStopsReading(ms, i);
    }
  }
}
