/** NetIds as text: `_ADSparseNetID` of src/ads.c and `_msgAmsNetID2string` of src/debugprint.c. */
module NetIdText {
  import opened Bytes
  import opened AdsH

  // ---------------------------------------------------------------- the C library

  predicate IsDigit(c: char) { '0' <= c <= '9' }

  /** `isspace` in the C locale. */
  predicate IsSpace(c: char) { c == ' ' || 9 <= c as int <= 13 }

  function DigitOf(c: char): nat
    requires IsDigit(c)
  {
    c as int - '0' as int
  }

  /** The number that a string of digits stands for. */
  function Value(ds: string): nat
    requires forall i :: 0 <= i < |ds| ==> IsDigit(ds[i])
  {
    if ds == [] then 0 else 10 * Value(ds[..|ds| - 1]) + DigitOf(ds[|ds| - 1])
  }

  /** The digits at the start of a string. */
  function Digits(s: string): (ds: string)
    ensures forall i :: 0 <= i < |ds| ==> IsDigit(ds[i])
  {
    if s == [] || !IsDigit(s[0]) then [] else [s[0]] + Digits(s[1..])
  }

  function SkipSpaces(s: string): string {
    if s != [] && IsSpace(s[0]) then SkipSpaces(s[1..]) else s
  }

  function Signed(s: string): int {
    if s != [] && s[0] == '-' then 0 - Value(Digits(s[1..]))
    else if s != [] && s[0] == '+' then Value(Digits(s[1..]))
    else Value(Digits(s))
  }

  /** `atoi`; a number that does not fit an int has no defined result. */
  function Atoi(s: string): int { Signed(SkipSpaces(s)) }

  predicate FitsInt(x: int) { -0x8000_0000 <= x < 0x8000_0000 }

  /** `strchr(s, '.')`. */
  function FindDot(s: string): (r: Option<nat>)
    ensures r.Some? ==> r.value < |s| && s[r.value] == '.' && NoDot(s[..r.value])
    ensures r.None? ==> NoDot(s)
  {
    if s == [] then None
    else if s[0] == '.' then Some(0)
    else match FindDot(s[1..])
      case None => None
      case Some(i) =>
        assert s[..i + 1] == [s[0]] + s[1..][..i];
        Some(i + 1)
  }

  /** `sprintf("%d")` of a number that is not negative. */
  function Decimal(n: nat): (s: string)
    ensures s != [] && forall i :: 0 <= i < |s| ==> IsDigit(s[i])
  {
    if n < 10 then [n as char + '0'] else Decimal(n / 10) + [(n % 10) as char + '0']
  }

  // ---------------------------------------------------------------- dotted strings

  predicate NoDot(s: string) { forall i :: 0 <= i < |s| ==> s[i] != '.' }

  /** The components between the dots. */
  function Split(s: string): (cs: seq<string>)
    ensures cs != []
    decreases |s|
  {
    match FindDot(s)
    case None => [s]
    case Some(i) => [s[..i]] + Split(s[i + 1..])
  }

  function Join(cs: seq<string>): string
    requires cs != []
  {
    if |cs| == 1 then cs[0] else cs[0] + "." + Join(cs[1..])
  }

  /** The components whose number is stored fit an int, as `atoi` demands. */
  predicate Parseable(s: string) {
    forall i :: 0 <= i < |Split(s)| && i < 6 ==> FitsInt(Atoi(Split(s)[i]))
  }

  function Components(id: NetId): (cs: seq<string>)
    ensures |cs| == 6
  {
    [Decimal(id[0]), Decimal(id[1]), Decimal(id[2]), Decimal(id[3]), Decimal(id[4]), Decimal(id[5])]
  }

  /** What `_msgAmsNetID2string` prints. */
  function Printed(id: NetId): string { Join(Components(id)) }

  /** The id that `_ADSparseNetID` leaves behind, component by component. */
  function Parsed(s: string, before: NetId): NetId {
    ParsedTo(Split(s), before, 6)
  }

  /** The id after the first `n` components have been stored. */
  function ParsedTo(cs: seq<string>, before: NetId, n: nat): NetId {
    seq(6, i requires 0 <= i < 6 => if i < n && i < |cs| then Wrap(Atoi(cs[i]), 0x100) else before[i])
  }

  // ---------------------------------------------------------------- lemmas

  lemma {:induction false} DigitsStop(s: string, rest: string)
    ensures Digits(s + "." + rest) == Digits(s)
  {
    var t := s + "." + rest;
    if s == [] {
      assert t[0] == '.';
    } else {
      assert t[0] == s[0] && t[1..] == s[1..] + "." + rest;
      DigitsStop(s[1..], rest);
    }
  }

  lemma {:induction false} SpacesStop(s: string, rest: string)
    ensures SkipSpaces(s + "." + rest) == SkipSpaces(s) + "." + rest
  {
    var t := s + "." + rest;
    if s == [] {
      assert t[0] == '.';
    } else {
      assert t[0] == s[0] && t[1..] == s[1..] + "." + rest;
      SpacesStop(s[1..], rest);
    }
  }

  /** `atoi` of the rest of a dotted string reads its first component only. */
  lemma AtoiStops(s: string, rest: string)
    ensures Atoi(s + "." + rest) == Atoi(s)
  {
    var t := SkipSpaces(s);
    SpacesStop(s, rest);
    var u := t + "." + rest;
    if t == [] {
      assert u[0] == '.';
    } else {
      assert u[0] == t[0] && u[1..] == t[1..] + "." + rest;
      DigitsStop(t[1..], rest);
    }
    DigitsStop(t, rest);
  }

  lemma {:induction false} AtoiFirst(s: string)
    ensures Atoi(s) == Atoi(Split(s)[0])
  {
    match FindDot(s) {
      case None =>
      case Some(i) =>
        assert s == s[..i] + "." + s[i + 1..];
        AtoiStops(s[..i], s[i + 1..]);
    }
  }

  lemma {:induction false} DigitsAll(ds: string)
    requires forall i :: 0 <= i < |ds| ==> IsDigit(ds[i])
    ensures Digits(ds) == ds
  {
    if ds != [] {
      DigitsAll(ds[1..]);
    }
  }

  lemma {:induction false} ValueOfDecimal(n: nat)
    ensures Value(Decimal(n)) == n
  {
    var s := Decimal(n);
    if n < 10 {
      assert s[..0] == [];
    } else {
      ValueOfDecimal(n / 10);
      assert s[..|s| - 1] == Decimal(n / 10);
    }
  }

  lemma {:induction false} AtoiOfDecimal(n: nat)
    ensures Atoi(Decimal(n)) == n
  {
    ValueOfDecimal(n);
    DigitsAll(Decimal(n));
    assert SkipSpaces(Decimal(n)) == Decimal(n);
  }

  lemma {:induction false} DigitsEnd(ds: string, s: string)
    requires forall i :: 0 <= i < |ds| ==> IsDigit(ds[i])
    requires s == [] || !IsDigit(s[0])
    ensures Digits(ds + s) == ds
  {
    if ds == [] {
      assert ds + s == s;
    } else {
      assert (ds + s)[0] == ds[0] && (ds + s)[1..] == ds[1..] + s;
      DigitsEnd(ds[1..], s);
    }
  }

  /** The digits of an octet: base 10, most significant first, no leading zeros. */
  lemma {:induction false} OctetText(n: byte)
    ensures var c := (d: int) requires 0 <= d < 10 => (48 + d) as char;
      Decimal(n) == (if n < 10 then [c(n)]
                     else if n < 100 then [c(n / 10), c(n % 10)]
                     else [c(n / 100), c(n / 10 % 10), c(n % 10)])
  {
    assert n >= 10 ==> Decimal(n) == Decimal(n / 10) + [(48 + n % 10) as char];
    assert n >= 100 ==> Decimal(n / 10) == Decimal(n / 10 / 10) + [(48 + n / 10 % 10) as char];
  }

  lemma {:induction false} Dotted(a: string, b: string, rest: seq<string>)
    ensures Join([a, b] + rest) == a + "." + Join([b] + rest)
  {
    assert ([a, b] + rest)[1..] == [b] + rest;
  }

  /** The text of an id: the six numbers with dots between them. */
  lemma PrintedIs(id: NetId)
    ensures Printed(id) == Decimal(id[0]) + "." + (Decimal(id[1]) + "." + (Decimal(id[2]) + "."
                           + (Decimal(id[3]) + "." + (Decimal(id[4]) + "." + Decimal(id[5])))))
  {
    var c := Components(id);
    assert c == [c[0], c[1]] + [c[2], c[3], c[4], c[5]];
    Dotted(c[0], c[1], [c[2], c[3], c[4], c[5]]);
    assert [c[1]] + [c[2], c[3], c[4], c[5]] == [c[1], c[2]] + [c[3], c[4], c[5]];
    Dotted(c[1], c[2], [c[3], c[4], c[5]]);
    assert [c[2]] + [c[3], c[4], c[5]] == [c[2], c[3]] + [c[4], c[5]];
    Dotted(c[2], c[3], [c[4], c[5]]);
    assert [c[3]] + [c[4], c[5]] == [c[3], c[4]] + [c[5]];
    Dotted(c[3], c[4], [c[5]]);
    assert [c[4]] + [c[5]] == [c[4], c[5]] + [];
    Dotted(c[4], c[5], []);
  }

  /** White space in front of a number is skipped. */
  lemma AtoiSkips(s: string, space: char)
    requires space in {' ', '\t', '\n', '\r', 11 as char, 12 as char}
    ensures Atoi([space] + s) == Atoi(s)
  {
    assert ([space] + s)[1..] == s;
  }

  lemma {:induction false} SignedReads(ds: string, s: string)
    requires ds != [] && forall i :: 0 <= i < |ds| ==> IsDigit(ds[i])
    requires s == [] || !IsDigit(s[0])
    ensures Signed(ds + s) == Signed(['+'] + (ds + s)) == Value(ds) && Signed(['-'] + (ds + s)) == 0 - Value(ds)
  {
    var t := ds + s;
    DigitsEnd(ds, s);
    assert t[0] == ds[0] && (['+'] + t)[1..] == t && (['-'] + t)[1..] == t;
  }

  /** `atoi` reads digits in base 10 up to the first other character, with or without a sign. */
  lemma {:induction false} AtoiReads(n: nat, s: string)
    requires s == [] || !('0' <= s[0] <= '9')
    ensures var t := Decimal(n) + s;
      Atoi(t) == Atoi(['+'] + t) == n && Atoi(['-'] + t) == 0 - n
  {
    var t := Decimal(n) + s;
    ValueOfDecimal(n);
    SignedReads(Decimal(n), s);
    assert t[0] == Decimal(n)[0];
  }

  /** What does not start with white space, a sign or a digit is 0. */
  lemma AtoiNothing(s: string)
    requires s == [] || s[0] !in {' ', '\t', '\n', '\r', 11 as char, 12 as char, '+', '-'}
    requires s == [] || !('0' <= s[0] <= '9')
    ensures Atoi(s) == 0
  {
    assert Digits(s) == [];
  }

  lemma {:induction false} FirstDot(s: string, rest: string)
    requires NoDot(s)
    ensures FindDot(s + "." + rest) == Some(|s|)
  {
    var t := s + "." + rest;
    if s == [] {
      assert t[0] == '.';
    } else {
      assert t[0] == s[0] && t[1..] == s[1..] + "." + rest;
      FirstDot(s[1..], rest);
    }
  }

  /** Splitting undoes joining. */
  lemma {:induction false} SplitJoin(cs: seq<string>)
    requires cs != [] && forall i :: 0 <= i < |cs| ==> NoDot(cs[i])
    ensures Split(Join(cs)) == cs
    decreases |cs|
  {
    var s := Join(cs);
    if |cs| == 1 {
      assert FindDot(s).None?;
    } else {
      var rest := Join(cs[1..]);
      FirstDot(cs[0], rest);
      assert s[..|cs[0]|] == cs[0] && s[|cs[0]| + 1..] == rest;
      SplitJoin(cs[1..]);
    }
  }

  /** Joining undoes splitting, so the components are the string. */
  lemma {:induction false} JoinSplit(s: string)
    ensures Join(Split(s)) == s
    decreases |s|
  {
    match FindDot(s) {
      case None =>
      case Some(i) =>
        JoinSplit(s[i + 1..]);
        assert Split(s)[1..] == Split(s[i + 1..]);
        assert s == s[..i] + "." + s[i + 1..];
    }
  }

  lemma ComponentsSplit(id: NetId)
    ensures Split(Printed(id)) == Components(id)
  {
    SplitJoin(Components(id));
  }

  /** Parsing what is printed gives back every id, whatever was in the structure before. */
  lemma NetIdRoundTrip(id: NetId, before: NetId)
    ensures Parseable(Printed(id)) && |Split(Printed(id))| == 6
    ensures Parsed(Printed(id), before) == id
  {
    ComponentsSplit(id);
    forall i | 0 <= i < 6
      ensures Atoi(Components(id)[i]) == id[i]
    {
      assert Components(id)[i] == Decimal(id[i]);
      AtoiOfDecimal(id[i]);
    }
  }

  lemma {:induction false} DecimalSize(n: nat)
    ensures n < 1000 ==> |Decimal(n)| <= 3
  {
    if 10 <= n < 1000 {
      assert n / 10 < 100;
      assert |Decimal(n / 10)| <= 2;
    }
  }

  lemma {:induction false} JoinSize(cs: seq<string>, most: nat)
    requires cs != [] && forall i :: 0 <= i < |cs| ==> |cs[i]| <= most
    ensures |Join(cs)| <= |cs| * (most + 1) - 1
    decreases |cs|
  {
    if |cs| > 1 {
      JoinSize(cs[1..], most);
      assert |cs| * (most + 1) == (|cs| - 1) * (most + 1) + (most + 1);
    }
  }

  /** The text with its terminator fits the static buffer. */
  lemma PrintedFits(id: NetId)
    ensures |Printed(id)| <= 23
  {
    forall i | 0 <= i < 6
      ensures |Components(id)[i]| <= 3
    {
      DecimalSize(id[i]);
    }
    JoinSize(Components(id), 3);
  }

  // ---------------------------------------------------------------- the program

  /** `_msgAmsNetID2string`, into its static buffer of 64 characters. */
  method NetIdToString(id: NetId, buffer: array<char>)
    requires buffer.Length == 64
    modifies buffer
    ensures |Printed(id)| < 64
    ensures buffer[..] == Printed(id) + ['\0'] + old(buffer[..])[|Printed(id)| + 1..]
  {
    PrintedFits(id);
    var text := Printed(id) + ['\0'];
    forall i | 0 <= i < |text| {
      buffer[i] := text[i];
    }
  }

  /** The components from number `i` on are those of `p`. */
  ghost predicate AtComponent(p: string, cs: seq<string>, i: nat) {
    i < |cs| && cs[i..] == Split(p)
  }

  /** At the start of component `i`: its number, and the dot in front of the next one. */
  lemma {:induction false} ComponentAt(p: string, cs: seq<string>, i: nat)
    requires AtComponent(p, cs, i)
    ensures Atoi(p) == Atoi(cs[i])
    ensures var dot := FindDot(p);
      if dot.None? then |cs| == i + 1 else AtComponent(p[dot.value + 1..], cs, i + 1)
  {
    AtoiFirst(p);
    assert cs[i] == cs[i..][0];
    match FindDot(p) {
      case None => assert |cs[i..]| == 1;
      case Some(d) => assert cs[i + 1..] == cs[i..][1..];
    }
  }

  lemma ParsedMore(cs: seq<string>, before: NetId, i: nat)
    requires i < 6 && i < |cs|
    ensures ParsedTo(cs, before, i)[i := Wrap(Atoi(cs[i]), 0x100)] == ParsedTo(cs, before, i + 1)
    ensures |cs| == i + 1 ==> ParsedTo(cs, before, i + 1) == ParsedTo(cs, before, 6)
  {
  }

  /** One round of the loop of `_ADSparseNetID`; the pointer `p` is the rest of the string. */
  method ParseComponent(p: string, id: array<byte>, i: nat, ghost cs: seq<string>, ghost before: NetId)
    returns (dot: Option<nat>)
    requires i < 6 == id.Length && AtComponent(p, cs, i) && id[..] == ParsedTo(cs, before, i)
    modifies id
    ensures id[..] == ParsedTo(cs, before, i + 1)
    ensures dot.None? ==> |cs| == i + 1 && id[..] == ParsedTo(cs, before, 6)
    ensures dot.Some? ==> dot.value < |p| && AtComponent(p[dot.value + 1..], cs, i + 1)
  {
    ComponentAt(p, cs, i);
    ParsedMore(cs, before, i);
    id[i] := Wrap(Atoi(p), 0x100);
    dot := FindDot(p);
  }

  /** `_ADSparseNetID`: the number of components that are missing, and the id. */
  method ParseNetId(s: string, id: array<byte>) returns (missing: int)
    requires id.Length == 6 && Parseable(s)
    modifies id
    ensures missing == if |Split(s)| < 6 then 6 - |Split(s)| else 0
    ensures id[..] == Parsed(s, old(id[..]))
  {
    var p := s;
    ghost var cs, before := Split(s), id[..];
    for i := 0 to 6
      invariant AtComponent(p, cs, i) && id[..] == ParsedTo(cs, before, i)
    {
      var dot := ParseComponent(p, id, i, cs, before);
      if dot.None? {
        return 5 - i;
      }
      p := p[dot.value + 1..];
    }
    return 0;
  }
}
