/** Version keys: _parse_version_parts and parse_version in shell/pkg_resources.py. */
module PkgVersion {

  // ----- the parts of a version -----

  datatype Class = Digit | Letter | Dot | Dash | Text

  function ClassOf(c: char): Class {
    if '0' <= c <= '9' then Digit
    else if 'a' <= c <= 'z' then Letter
    else if c == '.' then Dot
    else if c == '-' then Dash
    else Text
  }

  /** How many characters at the beginning make up one component; dots and dashes stand alone. */
  function RunLength(s: string): (n: nat)
    ensures n <= |s| && (s != [] ==> 0 < n)
  {
    if |s| <= 1 then |s|
    else if ClassOf(s[0]) in {Dot, Dash} || ClassOf(s[1]) != ClassOf(s[0]) then 1
    else 1 + RunLength(s[1..])
  }

  function Replaced(part: string): string {
    if part == "pre" || part == "preview" || part == "rc" then "c"
    else if part == "-" then "final-"
    else if part == "dev" then "@"
    else part
  }

  /** Pads with zeros on the left. */
  function ZFill(s: string, width: nat): (r: string)
    ensures |s| <= width ==> |r| == width
    decreases width - |s|
  {
    if |s| >= width then s else ZFill(['0'] + s, width)
  }

  function Component(part: string): string
    requires part != []
  {
    if ClassOf(part[0]) == Digit then ZFill(part, 8) else "*" + part
  }

  function Parts(s: string): seq<string>
    decreases |s|
  {
    if s == [] then ["*final"]
    else
      var part, rest := Replaced(s[..RunLength(s)]), s[RunLength(s)..];
      if part == [] || part == "." then Parts(rest) else [Component(part)] + Parts(rest)
  }

  // ----- comparing strings and tuples of strings -----

  function Sign(x: int): int {
    if x < 0 then -1 else if x == 0 then 0 else 1
  }

  function Compare(a: string, b: string): (c: int)
    ensures c in {-1, 0, 1}
    decreases |a|
  {
    if a == [] || b == [] then Sign(|a| - |b|)
    else if a[0] != b[0] then Sign(a[0] as int - b[0] as int)
    else Compare(a[1..], b[1..])
  }

  function CompareKeys(a: seq<string>, b: seq<string>): (c: int)
    ensures c in {-1, 0, 1}
    decreases |a|
  {
    if a == [] || b == [] then Sign(|a| - |b|)
    else if Compare(a[0], b[0]) != 0 then Compare(a[0], b[0])
    else CompareKeys(a[1..], b[1..])
  }

  // ----- the key -----

  function PopWhile(stack: seq<string>, part: string): (r: seq<string>)
    ensures r <= stack
  {
    if stack != [] && stack[|stack| - 1] == part then PopWhile(stack[..|stack| - 1], part) else stack
  }

  function Push(stack: seq<string>, part: string): seq<string> {
    if part != [] && part[0] == '*' then
      var s := if Compare(part, "*final") < 0 then PopWhile(stack, "*final-") else stack;
      PopWhile(s, "00000000") + [part]
    else stack + [part]
  }

  function PushAll(stack: seq<string>, parts: seq<string>): seq<string>
    decreases |parts|
  {
    if parts == [] then stack else PushAll(Push(stack, parts[0]), parts[1..])
  }

  function Lower(s: string): (r: string)
    ensures |r| == |s| && forall i :: 0 <= i < |s| ==>
              r[i] == if 'A' <= s[i] <= 'Z' then (s[i] as int + 32) as char else s[i]
  {
    if s == [] then [] else [if 'A' <= s[0] <= 'Z' then (s[0] as int + 32) as char else s[0]] + Lower(s[1..])
  }

  /** The key of a version. */
  function VersionKey(s: string): seq<string> {
    PushAll([], Parts(Lower(s)))
  }

  method PopAll(stack: seq<string>, part: string) returns (r: seq<string>)
    ensures r == PopWhile(stack, part)
  {
    r := stack;
    while r != [] && r[|r| - 1] == part
      invariant PopWhile(r, part) == PopWhile(stack, part)
      decreases |r|
    {
      r := r[..|r| - 1];
    }
  }

  method ParseVersion(s: string) returns (parts: seq<string>)
    ensures parts == VersionKey(s)
  {
    parts := [];
    var todo := Parts(Lower(s));
    for i := 0 to |todo|
      invariant PushAll(parts, todo[i..]) == VersionKey(s)
    {
      var part := todo[i];
      assert todo[i..][0] == part && todo[i..][1..] == todo[i + 1..];
      if part != [] && part[0] == '*' {
        if Compare(part, "*final") < 0 {
          parts := PopAll(parts, "*final-");
        }
        parts := PopAll(parts, "00000000");
      }
      parts := parts + [part];
    }
  }

  // ----- dotted numeric versions -----

  /** A component: up to eight digits, so less than 10^8. */
  predicate Numeral(c: string) {
    0 < |c| <= 8 && forall i :: 0 <= i < |c| ==> ClassOf(c[i]) == Digit
  }

  predicate Numerals(cs: seq<string>) {
    forall i :: 0 <= i < |cs| ==> Numeral(cs[i])
  }

  function Dotted(cs: seq<string>): string {
    if cs == [] then [] else if |cs| == 1 then cs[0] else cs[0] + "." + Dotted(cs[1..])
  }

  function DigitValue(c: char): nat
    requires ClassOf(c) == Digit
  {
    c as int - '0' as int
  }

  function ValueOf(c: string): nat
    requires forall i :: 0 <= i < |c| ==> ClassOf(c[i]) == Digit
  {
    if c == [] then 0 else 10 * ValueOf(c[..|c| - 1]) + DigitValue(c[|c| - 1])
  }

  function Values(cs: seq<string>): (vs: seq<nat>)
    requires Numerals(cs)
    ensures |vs| == |cs| && forall i :: 0 <= i < |cs| ==> vs[i] == ValueOf(cs[i])
  {
    seq(|cs|, i requires 0 <= i < |cs| => ValueOf(cs[i]))
  }

  /** The order of integer sequences, the shorter one extended with zeros. */
  function CompareExtended(a: seq<nat>, b: seq<nat>): int
    decreases |a| + |b|
  {
    if a == [] && b == [] then 0
    else
      var x: int, y: int := if a == [] then 0 else a[0], if b == [] then 0 else b[0];
      if x != y then Sign(x - y)
      else CompareExtended(if a == [] then [] else a[1..], if b == [] then [] else b[1..])
  }

  lemma {:induction false} RunOfDigits(c: string, rest: string)
    requires c != [] && (forall i :: 0 <= i < |c| ==> ClassOf(c[i]) == Digit) &&
             (rest != [] ==> ClassOf(rest[0]) != Digit)
    ensures RunLength(c + rest) == |c|
    decreases |c|
  {
    var s := c + rest;
    if |c| > 1 {
      assert s[1..] == c[1..] + rest;
      RunOfDigits(c[1..], rest);
    } else if rest != [] {
      assert s[1] == rest[0];
    }
  }

  function Padded(cs: seq<string>): (r: seq<string>)
    ensures |r| == |cs| && forall i :: 0 <= i < |cs| ==> r[i] == ZFill(cs[i], 8)
  {
    seq(|cs|, i requires 0 <= i < |cs| => ZFill(cs[i], 8))
  }

  lemma FirstPart(c: string, rest: string)
    requires Numeral(c) && (rest != [] ==> ClassOf(rest[0]) != Digit)
    ensures Parts(c + rest) == [ZFill(c, 8)] + Parts(rest)
  {
    RunOfDigits(c, rest);
    assert (c + rest)[..|c|] == c && (c + rest)[|c|..] == rest;
    assert ClassOf(c[0]) == Digit;
    assert Replaced(c) == c;
  }

  lemma DotSkipped(rest: string)
    ensures Parts("." + rest) == Parts(rest)
  {
    var s := "." + rest;
    assert RunLength(s) == 1;
    assert s[..1] == "." && s[1..] == rest;
  }

  lemma {:induction false} DottedParts(cs: seq<string>)
    requires Numerals(cs)
    ensures Parts(Dotted(cs)) == Padded(cs) + ["*final"]
    decreases |cs|
  {
    if cs == [] {
    } else if |cs| == 1 {
      FirstPart(cs[0], []);
      assert cs[0] + [] == cs[0];
    } else {
      var rest := Dotted(cs[1..]);
      assert Dotted(cs) == cs[0] + ("." + rest);
      FirstPart(cs[0], "." + rest);
      DotSkipped(rest);
      DottedParts(cs[1..]);
      assert Padded(cs) == [ZFill(cs[0], 8)] + Padded(cs[1..]);
    }
  }

  lemma {:induction false} DottedChars(cs: seq<string>, i: nat)
    requires Numerals(cs) && i < |Dotted(cs)|
    ensures ClassOf(Dotted(cs)[i]) in {Digit, Dot}
    decreases |cs|
  {
    if |cs| <= 1 {
    } else {
      var rest := Dotted(cs[1..]);
      assert Dotted(cs) == cs[0] + "." + rest;
      if i < |cs[0]| {
        assert Dotted(cs)[i] == cs[0][i];
      } else if i > |cs[0]| {
        assert Dotted(cs)[i] == rest[i - |cs[0]| - 1];
        DottedChars(cs[1..], i - |cs[0]| - 1);
      }
    }
  }

  lemma NothingToLower(s: string)
    requires forall i :: 0 <= i < |s| ==> ClassOf(s[i]) in {Digit, Dot}
    ensures Lower(s) == s
  {
  }

  lemma DottedIsLower(cs: seq<string>)
    requires Numerals(cs)
    ensures Lower(Dotted(cs)) == Dotted(cs)
  {
    var s := Dotted(cs);
    forall i | 0 <= i < |s| ensures ClassOf(s[i]) in {Digit, Dot} {
      DottedChars(cs, i);
    }
    NothingToLower(s);
  }

  lemma {:induction false} PushNumerals(stack: seq<string>, parts: seq<string>)
    requires forall i :: 0 <= i < |parts| ==> parts[i] != [] && parts[i][0] != '*'
    ensures PushAll(stack, parts + ["*final"]) == PopWhile(stack + parts, "00000000") + ["*final"]
    decreases |parts|
  {
    var all := parts + ["*final"];
    if parts == [] {
      assert all == ["*final"] && stack + parts == stack;
      assert Compare("*final", "*final") == 0 by { CompareSelf("*final"); }
      assert PushAll(Push(stack, "*final"), all[1..]) == Push(stack, "*final");
    } else {
      assert all[0] == parts[0] && all[1..] == parts[1..] + ["*final"];
      assert Push(stack, all[0]) == stack + [parts[0]];
      assert stack + [parts[0]] + parts[1..] == stack + parts;
      PushNumerals(stack + [parts[0]], parts[1..]);
    }
  }

  lemma {:induction false} CompareSelf(a: string)
    ensures Compare(a, a) == 0
    decreases |a|
  {
    if a == [] {
    } else {
      CompareSelf(a[1..]);
    }
  }

  /** The key of a dotted version: its padded components without trailing zeros, and the end mark. */
  lemma DottedKey(cs: seq<string>)
    requires Numerals(cs)
    ensures VersionKey(Dotted(cs)) == PopWhile(Padded(cs), "00000000") + ["*final"]
  {
    DottedIsLower(cs);
    DottedParts(cs);
    forall i | 0 <= i < |cs| ensures Padded(cs)[i] != [] && Padded(cs)[i][0] != '*' {
      ZFillDigits(cs[i], 8);
    }
    PushNumerals([], Padded(cs));
    assert [] + Padded(cs) == Padded(cs);
  }

  // ----- padded components compare as numbers -----

  predicate Digits(c: string) {
    forall i :: 0 <= i < |c| ==> ClassOf(c[i]) == Digit
  }

  lemma {:induction false} LeadingZero(c: string)
    requires Digits(c)
    ensures Digits(['0'] + c) && ValueOf(['0'] + c) == ValueOf(c)
    decreases |c|
  {
    var z := ['0'] + c;
    assert forall i :: 0 < i < |z| ==> z[i] == c[i - 1];
    if c != [] {
      LeadingZero(c[..|c| - 1]);
      assert z[..|z| - 1] == ['0'] + c[..|c| - 1];
    } else {
      assert z[..0] == [];
    }
  }

  lemma {:induction false} ZFillDigits(c: string, width: nat)
    requires Digits(c)
    ensures Digits(ZFill(c, width)) && ValueOf(ZFill(c, width)) == ValueOf(c)
    ensures |c| <= width ==> |ZFill(c, width)| == width
    decreases width - |c|
  {
    if |c| >= width {
    } else {
      LeadingZero(c);
      ZFillDigits(['0'] + c, width);
    }
  }

  /** Strings of one length compare by their last character if they agree before. */
  lemma {:induction false} CompareLast(a: string, b: string)
    requires |a| == |b| > 0
    ensures var c := Compare(a[..|a| - 1], b[..|b| - 1]);
            Compare(a, b) == if c != 0 then c else Sign(a[|a| - 1] as int - b[|b| - 1] as int)
    decreases |a|
  {
    if |a| <= 1 {
    } else {
      CompareLast(a[1..], b[1..]);
      assert a[..|a| - 1][1..] == a[1..][..|a| - 2] && b[..|b| - 1][1..] == b[1..][..|b| - 2];
    }
  }

  lemma {:induction false} CompareIsNumeric(a: string, b: string)
    requires Digits(a) && Digits(b) && |a| == |b|
    ensures Compare(a, b) == Sign(ValueOf(a) as int - ValueOf(b) as int)
    decreases |a|
  {
    if a == [] {
    } else {
      CompareLast(a, b);
      CompareIsNumeric(a[..|a| - 1], b[..|b| - 1]);
      assert ClassOf(a[|a| - 1]) == Digit && ClassOf(b[|b| - 1]) == Digit;
    }
  }

  // ----- tuples of them compare as integer sequences -----

  /** Eight digits each. */
  predicate EightDigits(a: seq<string>) {
    forall i :: 0 <= i < |a| ==> |a[i]| == 8 && Digits(a[i])
  }

  function Numbers(a: seq<string>): (vs: seq<nat>)
    requires EightDigits(a)
    ensures |vs| == |a| && forall i :: 0 <= i < |a| ==> vs[i] == ValueOf(a[i])
  {
    seq(|a|, i requires 0 <= i < |a| => ValueOf(a[i]))
  }

  predicate Trimmed(vs: seq<nat>) {
    vs != [] ==> vs[|vs| - 1] != 0
  }

  lemma {:induction false} ZerosBelow(vs: seq<nat>)
    requires Trimmed(vs) && vs != []
    ensures CompareExtended([], vs) == -1 && CompareExtended(vs, []) == 1
    decreases |vs|
  {
    if vs[0] != 0 {
    } else {
      ZerosBelow(vs[1..]);
    }
  }

  lemma MarkBelow(part: string)
    requires |part| == 8 && Digits(part)
    ensures Compare("*final", part) == -1 && Compare(part, "*final") == 1
  {
    assert ClassOf(part[0]) == Digit;
  }

  /** The first component of a key and the rest. */
  lemma KeyParts(a: seq<string>)
    requires a != [] && EightDigits(a)
    ensures (a + ["*final"])[0] == a[0] && (a + ["*final"])[1..] == a[1..] + ["*final"]
    ensures Numbers(a)[0] == ValueOf(a[0]) && Numbers(a)[1..] == Numbers(a[1..])
  {
  }

  lemma KeysStep(a: seq<string>, b: seq<string>)
    requires a != [] && b != [] && EightDigits(a) && EightDigits(b)
    ensures CompareKeys(a + ["*final"], b + ["*final"]) ==
            if Compare(a[0], b[0]) != 0 then Compare(a[0], b[0])
            else CompareKeys(a[1..] + ["*final"], b[1..] + ["*final"])
    ensures CompareExtended(Numbers(a), Numbers(b)) ==
            if ValueOf(a[0]) != ValueOf(b[0]) then Sign(ValueOf(a[0]) - ValueOf(b[0]))
            else CompareExtended(Numbers(a[1..]), Numbers(b[1..]))
  {
    KeyParts(a);
    KeyParts(b);
  }

  lemma TrimmedRest(a: seq<string>)
    requires a != [] && EightDigits(a) && Trimmed(Numbers(a))
    ensures EightDigits(a[1..]) && Trimmed(Numbers(a[1..]))
  {
    KeyParts(a);
  }

  lemma KeysEnd(b: seq<string>)
    requires b != [] && EightDigits(b) && Trimmed(Numbers(b))
    ensures CompareKeys(["*final"], b + ["*final"]) == -1 == CompareExtended([], Numbers(b))
    ensures CompareKeys(b + ["*final"], ["*final"]) == 1 == CompareExtended(Numbers(b), [])
  {
    MarkBelow(b[0]);
    ZerosBelow(Numbers(b));
  }

  lemma {:induction false} KeysCompare(a: seq<string>, b: seq<string>)
    requires EightDigits(a) && EightDigits(b) && Trimmed(Numbers(a)) && Trimmed(Numbers(b))
    ensures CompareKeys(a + ["*final"], b + ["*final"]) == CompareExtended(Numbers(a), Numbers(b))
    decreases |a|
  {
    if a == [] && b == [] {
      CompareSelf("*final");
      assert [] + ["*final"] == ["*final"] && ["*final"][1..] == [];
    } else if a == [] {
      assert [] + ["*final"] == ["*final"];
      KeysEnd(b);
    } else if b == [] {
      assert [] + ["*final"] == ["*final"];
      KeysEnd(a);
    } else {
      CompareIsNumeric(a[0], b[0]);
      KeysStep(a, b);
      TrimmedRest(a);
      TrimmedRest(b);
      KeysCompare(a[1..], b[1..]);
    }
  }

  // ----- trailing zeros -----

  lemma {:induction false} TrailingZero(a: seq<nat>, b: seq<nat>)
    ensures CompareExtended(a + [0], b) == CompareExtended(a, b)
    ensures CompareExtended(b, a + [0]) == CompareExtended(b, a)
    decreases |a| + |b|
  {
    if a == [] {
      assert [] + [0] == [0] && [0][1..] == [];
      if b != [] {
        AllZeros(b);
      }
    } else {
      assert (a + [0])[1..] == a[1..] + [0];
      TrailingZero(a[1..], if b == [] then [] else b[1..]);
    }
  }

  lemma AllZeros(b: seq<nat>)
    ensures CompareExtended([0], b) == CompareExtended([], b) && CompareExtended(b, [0]) == CompareExtended(b, [])
  {
    assert [0][1..] == [];
  }

  lemma {:induction false} PopIsTrim(a: seq<string>, other: seq<nat>)
    requires EightDigits(a)
    ensures var t := PopWhile(a, "00000000");
            && EightDigits(t) && Trimmed(Numbers(t))
            && CompareExtended(Numbers(t), other) == CompareExtended(Numbers(a), other)
            && CompareExtended(other, Numbers(t)) == CompareExtended(other, Numbers(a))
    decreases |a|
  {
    if a == [] {
    } else {
      var last, before := a[|a| - 1], a[..|a| - 1];
      ZeroValue(last);
      if last == "00000000" {
        PopIsTrim(before, other);
        TrailingZero(Numbers(before), other);
        assert Numbers(a) == Numbers(before) + [0];
      }
    }
  }

  lemma ZeroValue(part: string)
    requires |part| == 8 && Digits(part)
    ensures ValueOf(part) == 0 <==> part == "00000000"
  {
    ZeroDigits(part);
    if part == "00000000" {
      assert forall i :: 0 <= i < |part| ==> part[i] == '0';
    }
  }

  lemma {:induction false} ZeroDigits(part: string)
    requires Digits(part)
    ensures ValueOf(part) == 0 <==> forall i :: 0 <= i < |part| ==> part[i] == '0'
    decreases |part|
  {
    if part == [] {
    } else {
      var before := part[..|part| - 1];
      ZeroDigits(before);
      assert ClassOf(part[|part| - 1]) == Digit;
      assert forall i :: 0 <= i < |before| ==> before[i] == part[i];
    }
  }

  /** The keys of dotted numeric versions are ordered as the zero-extended sequences of their components. */
  lemma VersionOrder(a: seq<string>, b: seq<string>)
    requires Numerals(a) && Numerals(b)
    ensures CompareKeys(VersionKey(Dotted(a)), VersionKey(Dotted(b))) == CompareExtended(Values(a), Values(b))
  {
    DottedKey(a);
    DottedKey(b);
    PaddedNumbers(a);
    PaddedNumbers(b);
    PopIsTrim(Padded(a), Numbers(PopWhile(Padded(b), "00000000")));
    PopIsTrim(Padded(b), Numbers(Padded(a)));
    PopIsTrim(Padded(b), []);
    KeysCompare(PopWhile(Padded(a), "00000000"), PopWhile(Padded(b), "00000000"));
  }

  lemma PaddedNumbers(cs: seq<string>)
    requires Numerals(cs)
    ensures EightDigits(Padded(cs)) && Numbers(Padded(cs)) == Values(cs)
  {
    forall i | 0 <= i < |cs|
      ensures |Padded(cs)[i]| == 8 && Digits(Padded(cs)[i]) && ValueOf(Padded(cs)[i]) == ValueOf(cs[i])
    {
      ZFillDigits(cs[i], 8);
    }
  }
}
